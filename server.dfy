/**
 * The two tables and the route handlers that read and change them: register,
 * login, and the create, edit, delete and view routes for posts. Each handler
 * takes `req.user` as the middleware resolved it, and the clock, the bcrypt
 * salt and the libraries as parameters.
 */
module Server {
  import opened Opt
  import opened JsString
  import opened Collaborators
  import opened Records
  import opened Validation
  import opened Session
  import opened Ownership

  /** Every username maps to the one user row that carries it: the UNIQUE index on `users.username`. */
  ghost predicate IndexMatches(users: map<int, User>, userIdByName: map<string, int>) {
    && (forall name :: name in userIdByName ==>
          userIdByName[name] in users && users[userIdByName[name]].username == name)
    && (forall id :: id in users ==>
          users[id].username in userIdByName && userIdByName[users[id].username] == id)
  }

  /** `SELECT * FROM users WHERE USERNAME = ?`: the id of the row named `name`, if there is one. */
  function FindByUsername(users: map<int, User>, userIdByName: map<string, int>, name: string): (found: Option<int>)
    requires IndexMatches(users, userIdByName)
    ensures found.Some? ==> found.value in users && users[found.value].username == name
    ensures found.None? ==> forall id :: id in users ==> users[id].username != name
  {
    if name in userIdByName then Some(userIdByName[name]) else None
  }

  /**
   * Only names that passed the registration rules are ever taken, so the
   * uniqueness message never joins a message about the name's shape,
   * whatever the password, and an empty name is never taken.
   */
  lemma OnlyAcceptableNamesTaken(users: map<int, User>, userIdByName: map<string, int>, name: string)
    requires IndexMatches(users, userIdByName)
    requires forall id :: id in users ==> AcceptableUsername(users[id].username)
    ensures name in userIdByName ==> AcceptableUsername(name)
    ensures name in userIdByName ==>
              forall p: string :: var errors := RegistrationErrors(name, p, true);
                && UsernameRequired !in errors && UsernameTooShort !in errors
                && UsernameTooLong !in errors && UsernameNotAlphanumeric !in errors
    ensures "" !in userIdByName
  {
    forall n | n in userIdByName ensures AcceptableUsername(n) {
      var id := userIdByName[n];
      assert id in users && users[id].username == n;
    }
    if name in userIdByName {
      forall p: string ensures var errors := RegistrationErrors(name, p, true);
                && UsernameRequired !in errors && UsernameTooShort !in errors
                && UsernameTooLong !in errors && UsernameNotAlphanumeric !in errors
      {
        RegistrationMessages(name, p, true);
      }
    }
  }

  /** The decision of the login handler, before it is turned into a response. */
  datatype LoginResult = Rejected(errors: seq<Message>) | Accepted(userId: int, username: string)

  /**
   * Lines 94-119: one generic message per blank field (the username is
   * tested trimmed, the password as sent), then a lookup of the username AS
   * SENT, then bcrypt on the password AS SENT.
   */
  function LoginOutcome(users: map<int, User>, userIdByName: map<string, int>,
                        username: string, password: string, bcrypt: Bcrypt): (r: LoginResult)
    requires IndexMatches(users, userIdByName)
    ensures r.Accepted? ==> && r.userId in users && r.username == username
                            && users[r.userId].username == username
                            && bcrypt.compareSync(password, users[r.userId].password)
    ensures r.Rejected? ==> 1 <= |r.errors| <= 2 && forall m :: m in r.errors ==> m == InvalidCredentials
  {
    var blank := Report(Trim(username) == "", InvalidCredentials) + Report(password == "", InvalidCredentials);
    if blank != [] then Rejected(blank)
    else match FindByUsername(users, userIdByName, username)
      case None => Rejected([InvalidCredentials])
      case Some(id) =>
        if bcrypt.compareSync(password, users[id].password) then Accepted(id, users[id].username)
        else Rejected([InvalidCredentials])
  }

  /**
   * Lines 101, 111, 118 and 121-128: the login page with its errors, or `/`
   * with a fresh session cookie that verifies, for the rest of the day, to
   * the accepted user's id and name.
   */
  function LoginResponse(result: LoginResult, nowMs: nat, signMs: nat, jwt: Jwt, secret: Secret): (r: Response)
    ensures r.Render? <==> result.Rejected?
    ensures result.Rejected? ==> r.view == LoginPage && r.errors == result.errors
    ensures result.Accepted? ==> r.Redirect? && r.to == Home && r.setCookie.Some?
    ensures result.Accepted? && JwtLawful(jwt) ==>
              forall t :: nowMs / 1000 <= t < nowMs / 1000 + TOKEN_LIFETIME ==>
                  match jwt.verify(r.setCookie.value, secret, t)
                  case Some(c) => c.userId == Some(result.userId) && c.username == result.username
                  case None => false
  {
    match result
    case Rejected(errors) => Render(LoginPage, errors)
    case Accepted(id, name) => Redirect(Home, Some(jwt.sign(SessionClaims(Some(id), name, nowMs, signMs), secret)))
  }

  /** A blank field is refused before the table is consulted: the answer is the same for every table. */
  lemma BlankLoginRefusedBeforeLookup(users: map<int, User>, userIdByName: map<string, int>,
                                      username: string, password: string, bcrypt: Bcrypt)
    requires IndexMatches(users, userIdByName)
    requires Trim(username) == "" || password == ""
    ensures LoginOutcome(users, userIdByName, username, password, bcrypt)
            == Rejected(Report(Trim(username) == "", InvalidCredentials) + Report(password == "", InvalidCredentials))
    ensures LoginOutcome(users, userIdByName, username, password, bcrypt)
            == LoginOutcome(map[], map[], username, password, bcrypt)
  {
  }

  /**
   * An unknown username and a wrong password are indistinguishable: once both
   * fields are filled in, every refusal is exactly the one generic message.
   */
  lemma LoginRefusalIsGeneric(users: map<int, User>, userIdByName: map<string, int>,
                              username: string, password: string, bcrypt: Bcrypt)
    requires IndexMatches(users, userIdByName)
    requires Trim(username) != "" && password != ""
    ensures LoginOutcome(users, userIdByName, username, password, bcrypt).Rejected? ==>
            LoginOutcome(users, userIdByName, username, password, bcrypt) == Rejected([InvalidCredentials])
    ensures (forall id :: id in users ==> users[id].username != username) ==>
            LoginOutcome(users, userIdByName, username, password, bcrypt) == Rejected([InvalidCredentials])
  {
  }

  /** Login succeeds exactly for a filled-in form naming a stored user whose hash matches the password. */
  lemma LoginAcceptedExactly(users: map<int, User>, userIdByName: map<string, int>,
                             username: string, password: string, bcrypt: Bcrypt, id: int, name: string)
    requires IndexMatches(users, userIdByName)
    ensures LoginOutcome(users, userIdByName, username, password, bcrypt) == Accepted(id, name)
            <==> && Trim(username) != "" && password != ""
                 && id in users && users[id].username == username && name == username
                 && bcrypt.compareSync(password, users[id].password)
  {
  }

  /**
   * A user the register handler stored can log in with the same, trimmed,
   * username and password.
   */
  lemma LoginAfterRegistration(users: map<int, User>, userIdByName: map<string, int>,
                               id: int, u: string, p: string, salt: string, bcrypt: Bcrypt)
    requires BcryptLawful(bcrypt)
    requires IndexMatches(users, userIdByName)
    requires id in users && users[id] == User(u, bcrypt.hashSync(p, salt))
    requires AcceptableUsername(u) && AcceptablePassword(p)
    ensures LoginOutcome(users, userIdByName, u, p, bcrypt) == Accepted(id, u)
  {
  }

  /**
   * Login does not trim the username it looks up: " alice" fails even when
   * "alice" is registered, because every stored name is alphanumeric.
   */
  lemma LoginDoesNotTrimUsername(users: map<int, User>, userIdByName: map<string, int>,
                                 username: string, password: string, bcrypt: Bcrypt)
    requires IndexMatches(users, userIdByName)
    requires forall id :: id in users ==> MatchesAlphanumeric(users[id].username)
    requires username != [] && IsWhiteSpace(username[0]) && Trim(username) != "" && password != ""
    ensures LoginOutcome(users, userIdByName, username, password, bcrypt) == Rejected([InvalidCredentials])
  {
  }

  /**
   * Quirk of lines 172 and 179: the register handler's token has no
   * `userId`, so the session it starts can edit, delete or own no post.
   */
  lemma RegistrationSessionOwnsNothing(username: string, nowMs: nat, signMs: nat, laterMs: nat, jwt: Jwt, secret: Secret,
                                       posts: map<int, Post>, id: int)
    requires JwtLawful(jwt)
    ensures var identity := ResolveIdentity(Some(jwt.sign(SessionClaims(None, username, nowMs, signMs), secret)), jwt, secret, laterMs);
            && (identity.Authenticated? <==> laterMs / 1000 < nowMs / 1000 + TOKEN_LIFETIME)
            && (identity.Authenticated? ==> PostAccess(posts, id, identity.user) != Allowed)
  {
  }

  /** The login handler's token lets its user act on exactly the posts whose `authorid` is theirs, for one day. */
  lemma LoginSessionOwnsOwnPosts(userId: int, username: string, nowMs: nat, signMs: nat, laterMs: nat, jwt: Jwt, secret: Secret,
                                 posts: map<int, Post>, id: int)
    requires JwtLawful(jwt)
    requires laterMs / 1000 < nowMs / 1000 + TOKEN_LIFETIME
    ensures var identity := ResolveIdentity(Some(jwt.sign(SessionClaims(Some(userId), username, nowMs, signMs), secret)), jwt, secret, laterMs);
            && identity.Authenticated?
            && (PostAccess(posts, id, identity.user) == Allowed <==> id in posts && posts[id].authorid == userId)
  {
  }

  /** The database: the `users` and `posts` tables and their AUTOINCREMENT counters. */
  class Database {
    var users: map<int, User>
    /** The UNIQUE index on `users.username`. */
    var userIdByName: map<string, int>
    var posts: map<int, Post>
    /** The largest id ever handed out in each table (SQLite's `sqlite_sequence`). */
    var userSeq: nat
    var postSeq: nat

    /**
     * Ids are positive and never above their counter; usernames are unique;
     * every stored name passed the registration rules, the only way rows
     * get into `users`; and every post's `authorid` names a user row, the
     * foreign key of line 39.
     */
    ghost function Valid(): (r: bool)
      reads this
      ensures r ==> userSeq + 1 !in users && postSeq + 1 !in posts
      ensures r ==> "" !in userIdByName
    {
      && IndexMatches(users, userIdByName)
      && (forall id :: id in users ==> 0 < id <= userSeq)
      && (forall id :: id in users ==> AcceptableUsername(users[id].username))
      && (forall id :: id in posts ==> 0 < id <= postSeq)
      && (forall id :: id in posts ==> posts[id].authorid in users)
    }

    /** Freshly created tables. */
    constructor ()
      ensures Valid()
      ensures users == map[] && userIdByName == map[] && posts == map[]
      ensures userSeq == 0 && postSeq == 0
    {
      users, userIdByName, posts := map[], map[], map[];
      userSeq, postSeq := 0, 0;
    }

    /**
     * POST /register. Every violated rule is reported and nothing changes;
     * otherwise the user is inserted under the next id and the new session's
     * token is set. A failing insert is swallowed and still redirects.
     */
    method Register(username: Option<string>, password: Option<string>, salt: string, storageFailure: bool,
                    nowMs: nat, signMs: nat, bcrypt: Bcrypt, jwt: Jwt, secret: Secret) returns (resp: Response)
      requires Valid()
      modifies this
      ensures Valid()
      ensures var u, p := Trim(username.GetOr("")), Trim(password.GetOr(""));
              var errors := RegistrationErrors(u, p, u in old(userIdByName));
              if errors != [] then resp == Render(HomePage, errors) && unchanged(this)
              else if storageFailure then resp == Redirect(Home, None) && unchanged(this)
              else
                var id := old(userSeq) + 1;
                && users == old(users)[id := User(u, bcrypt.hashSync(p, salt))]
                && userIdByName == old(userIdByName)[u := id]
                && userSeq == id
                && posts == old(posts) && postSeq == old(postSeq)
                && resp == Redirect(Home, Some(jwt.sign(SessionClaims(None, u, nowMs, signMs), secret)))
    {
      var u := Trim(username.GetOr(""));
      var p := Trim(password.GetOr(""));
      var taken := FindByUsername(users, userIdByName, u).Some?;
      var errors := ValidateRegistration(u, p, taken);
      if errors != [] {
        return Render(HomePage, errors);
      }
      var hash := bcrypt.hashSync(p, salt);
      if storageFailure {
        // the catch at lines 184-186 only logs
        return Redirect(Home, None);
      }
      var id := userSeq + 1;
      users := users[id := User(u, hash)];
      userIdByName := userIdByName[u := id];
      userSeq := id;
      // the row read back holds only `username`, so `ouruser.id` is undefined
      var token := jwt.sign(SessionClaims(None, users[id].username, nowMs, signMs), secret);
      resp := Redirect(Home, Some(token));
    }

    /** POST /login: reads the tables and changes nothing. */
    method Login(username: Option<string>, password: Option<string>, nowMs: nat, signMs: nat,
                 bcrypt: Bcrypt, jwt: Jwt, secret: Secret) returns (resp: Response)
      requires Valid()
      ensures resp == LoginResponse(LoginOutcome(users, userIdByName, username.GetOr(""), password.GetOr(""), bcrypt),
                                    nowMs, signMs, jwt, secret)
    {
      var u := username.GetOr("");
      var p := password.GetOr("");
      var errors := [];
      if Trim(u) == "" { errors := errors + [InvalidCredentials]; }
      if p == "" { errors := errors + [InvalidCredentials]; }
      if errors != [] {
        return Render(LoginPage, errors);
      }
      var found := FindByUsername(users, userIdByName, u);
      if found.None? {
        return Render(LoginPage, [InvalidCredentials]);
      }
      var user := users[found.value];
      if !bcrypt.compareSync(p, user.password) {
        return Render(LoginPage, [InvalidCredentials]);
      }
      var token := jwt.sign(SessionClaims(Some(found.value), user.username, nowMs, signMs), secret);
      resp := Redirect(Home, Some(token));
    }

    /** GET /create-post: the form, behind the gate. */
    method CreatePostForm(identity: Identity) returns (resp: Response)
      ensures identity.Anonymous? <==> resp == Redirect(Home, None)
      ensures identity.Authenticated? <==> resp == Render(CreatePostPage, [])
    {
      if MustBeLoggedIn(identity).RedirectHome? {
        return Redirect(Home, None);
      }
      resp := Render(CreatePostPage, []);
    }

    /**
     * POST /create-post. Invalid input re-renders the form; a valid post is
     * inserted under the next id with the caller as its author. A caller whose
     * claims carry no `userId` makes the insert violate `authorid NOT NULL`,
     * and one whose `userId` names no user row violates the foreign key: in
     * both cases the exception escapes and nothing is stored.
     */
    method CreatePost(identity: Identity, title: Option<string>, body: Option<string>,
                      createdDate: string, sanitize: Sanitizer) returns (resp: Response)
      requires Valid()
      modifies this
      ensures Valid()
      ensures match MustBeLoggedIn(identity)
              case RedirectHome => resp == Redirect(Home, None) && unchanged(this)
              case Proceed(user) =>
                var check := PostValidation(title, body, sanitize);
                if check.TypeErrorThrown? then resp == ServerError && unchanged(this)
                else if check.errors != [] then resp == Render(CreatePostPage, check.errors) && unchanged(this)
                else if user.userId.None? || user.userId.value !in old(users) then resp == ServerError && unchanged(this)
                else
                  var id := old(postSeq) + 1;
                  && posts == old(posts)[id := Post(check.title, check.body, user.userId.value, createdDate)]
                  && postSeq == id
                  && users == old(users) && userIdByName == old(userIdByName) && userSeq == old(userSeq)
                  && resp == Redirect(PostPage(id), None)
    {
      var gate := MustBeLoggedIn(identity);
      if gate.RedirectHome? {
        return Redirect(Home, None);
      }
      var check := SharedPostValidation(title, body, sanitize);
      if check.TypeErrorThrown? {
        return ServerError;
      }
      if check.errors != [] {
        return Render(CreatePostPage, check.errors);
      }
      if gate.user.userId.None? || gate.user.userId.value !in users {
        return ServerError;
      }
      var id := postSeq + 1;
      posts := posts[id := Post(check.title, check.body, gate.user.userId.value, createdDate)];
      postSeq := id;
      resp := Redirect(PostPage(id), None);
    }

    /** GET /edit-post/:id: the form for the caller's own post; every other case goes back to `/`. */
    method EditPostForm(identity: Identity, id: int) returns (resp: Response)
      ensures resp == match MustBeLoggedIn(identity)
                      case RedirectHome => Redirect(Home, None)
                      case Proceed(user) =>
                        if PostAccess(posts, id, user) == Allowed then Render(EditPostPage(Some(posts[id])), [])
                        else Redirect(Home, None)
      ensures resp.Render? ==> identity.Authenticated? && id in posts && IsAuthor(posts[id], identity.user)
    {
      if identity.Anonymous? {
        return Redirect(Home, None);
      }
      if id !in posts {
        return Redirect(Home, None);
      }
      if Some(posts[id].authorid) != identity.user.userId {
        return Redirect(Home, None);
      }
      resp := Render(EditPostPage(Some(posts[id])), []);
    }

    /**
     * POST /edit-post/:id. Only the author of an existing post gets past the
     * checks, and only valid input changes it: its title and body, nothing else.
     */
    method EditPost(identity: Identity, id: int, title: Option<string>, body: Option<string>,
                    sanitize: Sanitizer) returns (resp: Response)
      requires Valid()
      modifies this
      ensures Valid()
      ensures match MustBeLoggedIn(identity)
              case RedirectHome => resp == Redirect(Home, None) && unchanged(this)
              case Proceed(user) =>
                if PostAccess(old(posts), id, user) != Allowed then resp == Redirect(Home, None) && unchanged(this)
                else
                  var check := PostValidation(title, body, sanitize);
                  if check.TypeErrorThrown? then resp == ServerError && unchanged(this)
                  else if check.errors != [] then resp == Render(EditPostPage(None), check.errors) && unchanged(this)
                  else
                    && posts == old(posts)[id := old(posts)[id].(title := check.title, body := check.body)]
                    && postSeq == old(postSeq)
                    && users == old(users) && userIdByName == old(userIdByName) && userSeq == old(userSeq)
                    && resp == Redirect(PostPage(id), None)
    {
      if identity.Anonymous? {
        return Redirect(Home, None);
      }
      if id !in posts {
        return Redirect(Home, None);
      }
      if Some(posts[id].authorid) != identity.user.userId {
        return Redirect(Home, None);
      }
      var check := SharedPostValidation(title, body, sanitize);
      if check.TypeErrorThrown? {
        return ServerError;
      }
      if check.errors != [] {
        return Render(EditPostPage(None), check.errors);
      }
      posts := posts[id := posts[id].(title := check.title, body := check.body)];
      resp := Redirect(PostPage(id), None);
    }

    /** POST /delete-post/:id: the author of an existing post removes exactly that post. */
    method DeletePost(identity: Identity, id: int) returns (resp: Response)
      requires Valid()
      modifies this
      ensures Valid()
      ensures resp == Redirect(Home, None)
      ensures match MustBeLoggedIn(identity)
              case RedirectHome => unchanged(this)
              case Proceed(user) =>
                if PostAccess(old(posts), id, user) != Allowed then unchanged(this)
                else
                  && posts == old(posts) - {id}
                  && postSeq == old(postSeq)
                  && users == old(users) && userIdByName == old(userIdByName) && userSeq == old(userSeq)
    {
      if identity.Anonymous? {
        return Redirect(Home, None);
      }
      if id !in posts {
        return Redirect(Home, None);
      }
      if Some(posts[id].authorid) != identity.user.userId {
        return Redirect(Home, None);
      }
      posts := posts - {id};
      resp := Redirect(Home, None);
    }

    /**
     * GET /post/:id: any signed-in user sees a post whose author has a row
     * (the INNER JOIN), flagged with whether they wrote it. Under the foreign
     * key every existing post has one.
     */
    method ViewPost(identity: Identity, id: int) returns (resp: Response)
      ensures resp.Render? <==> identity.Authenticated? && id in posts && posts[id].authorid in users
      ensures Valid() ==> (resp.Render? <==> identity.Authenticated? && id in posts)
      ensures !resp.Render? ==> resp == Redirect(Home, None)
      ensures resp.Render? ==> resp == Render(SinglePostPage(posts[id], IsAuthor(posts[id], identity.user)), [])
      ensures resp.Render? ==> (resp.view.isAuthor <==> identity.user.userId == Some(posts[id].authorid))
    {
      if identity.Anonymous? {
        return Redirect(Home, None);
      }
      if id !in posts || posts[id].authorid !in users {
        return Redirect(Home, None);
      }
      var post := posts[id];
      var isAuthor := Some(post.authorid) == identity.user.userId;
      resp := Render(SinglePostPage(post, isAuthor), []);
    }
  }
}
