/**
 * The authentication endpoints: registering a user with a hashed password
 * and checking a username and password against the stored hash. Both work
 * directly on the Users table of the shared context.
 */
module Authentication {
  import opened Wrappers
  import opened Entities
  import opened Tracking
  import opened Database
  import opened Responses

  /** The user fields a successful login returns; the password hash is not among them. */
  datatype UserView = UserView(id: int, username: Option<string>, role: Option<string>)

  /** The body of a successful login. */
  datatype LoginReply = LoginReply(message: string, user: UserView)

  /** Some user has this username; a null username matches a null one, as the database compares them. */
  predicate UsernameTaken(users: map<int, UserEntity>, username: Option<string>)
  {
    exists id :: id in users && users[id].username == username
  }

  /** At most one user has this username. */
  ghost predicate UniqueUsername(users: map<int, UserEntity>, username: Option<string>)
  {
    forall a, b :: a in users && b in users && users[a].username == username && users[b].username == username ==> a == b
  }

  class AuthenticationController {
    const context: ApplicationDbContext
    /** The password hash (SHA-256 of the UTF-8 bytes, Base64-encoded), kept uninterpreted. */
    const hash: string -> string

    ghost predicate Valid()
      reads context.Sets()
    {
      context.Valid()
    }

    constructor (context: ApplicationDbContext, hash: string -> string)
      ensures this.context == context && this.hash == hash
    {
      this.context := context;
      this.hash := hash;
    }

    function UserRows(): (rows: map<int, UserEntity>)
      reads context.users
    {
      context.users.rows
    }

    /** The stored form of a password. */
    function HashPassword(password: string): (stored: string)
    {
      hash(password)
    }

    /** Whether `enteredPassword` hashes to `storedHash`; a null stored hash matches no password. */
    function VerifyPassword(enteredPassword: string, storedHash: Option<string>): (accepted: bool)
      ensures storedHash == Some(HashPassword(enteredPassword)) ==> accepted
      ensures storedHash.None? ==> !accepted
    {
      storedHash.Some? && HashPassword(enteredPassword) == storedHash.value
    }

    /** A stored hash verifies the password it was made from, and a null stored hash verifies none. */
    lemma HashThenVerify(password: string, other: string)
      ensures VerifyPassword(password, Some(HashPassword(password)))
      ensures !VerifyPassword(other, None)
      ensures VerifyPassword(other, Some(HashPassword(password))) <==> HashPassword(other) == HashPassword(password)
    {
    }

    /**
     * Registers a user. A username already in use is refused first, with
     * nothing stored. A missing password cannot be hashed: the request
     * fails with a server error, again with nothing stored. Otherwise the
     * user is stored under a fresh Id with the hash of the password in the
     * password field, and no other table changes.
     */
    method CreateUser(request: UserRequest) returns (r: ActionResult<string>)
      requires Valid() && context.Idle()
      modifies context.Sets()
      ensures Valid() && context.Idle()
      ensures UsernameTaken(old(UserRows()), request.username) ==>
        r == BadRequest(USERNAME_TAKEN) && unchanged(context.Sets())
      ensures !UsernameTaken(old(UserRows()), request.username) && request.password.None? ==>
        r == InternalServerError(INTERNAL_ERROR) && unchanged(context.Sets())
      ensures !UsernameTaken(old(UserRows()), request.username) && request.password.Some? ==>
        var id := old(context.users.nextId);
        && r == Ok(USER_REGISTERED)
        && id !in old(UserRows())
        && UserRows() == old(UserRows())[id := UserEntity(request.username, request.role, Some(HashPassword(request.password.value)))]
      ensures context.tasks.rows == old(context.tasks.rows) && context.columns.rows == old(context.columns.rows)
      ensures !UsernameTaken(old(UserRows()), request.username) ==> UniqueUsername(UserRows(), request.username)
      ensures forall name :: UniqueUsername(old(UserRows()), name) ==> UniqueUsername(UserRows(), name)
    {
      if UsernameTaken(context.users.rows, request.username) {
        return BadRequest(USERNAME_TAKEN);
      }
      if request.password.None? {
        return InternalServerError(INTERNAL_ERROR);
      }
      var hashedPassword := HashPassword(request.password.value);
      var newUser := UserEntity(request.username, request.role, Some(hashedPassword));
      var id := context.users.Add(newUser);
      ApplySingle(UserRows(), Insert(id, newUser));
      EmptyCommits(context);
      var saved := context.SaveChanges();
      assert saved;
      r := Ok(USER_REGISTERED);
    }

    /** Some user with this username, chosen as the query does, or None when there is none. */
    method FindByUsername(username: Option<string>) returns (found: Option<Row<UserEntity>>)
      requires Valid()
      ensures found.None? <==> !UsernameTaken(UserRows(), username)
      ensures found.Some? ==>
        && found.value.id in UserRows()
        && UserRows()[found.value.id] == found.value.entity
        && found.value.entity.username == username
    {
      if UsernameTaken(context.users.rows, username) {
        var id :| id in context.users.rows && context.users.rows[id].username == username;
        found := Some(Row(id, context.users.rows[id]));
      } else {
        found := None;
      }
    }

    /**
     * Checks a username and password. An unknown username and a wrong
     * password give the same Unauthorized answer; for a known username a
     * missing password cannot be hashed and gives a server error. A success
     * names a stored user with that username whose hash the password
     * matches, and returns that user's Id, username and role. When only one
     * user has the username, that user determines the answer.
     */
    method Login(request: UserRequest) returns (r: ActionResult<LoginReply>)
      requires Valid()
      ensures r.Ok? || r == Unauthorized(INVALID_CREDENTIALS) || r == InternalServerError(INTERNAL_ERROR)
      ensures !UsernameTaken(UserRows(), request.username) ==> r == Unauthorized(INVALID_CREDENTIALS)
      ensures UsernameTaken(UserRows(), request.username) && request.password.None? ==> r == InternalServerError(INTERNAL_ERROR)
      ensures r.Ok? ==>
        var user := r.value.user;
        && r.value.message == LOGIN_SUCCEEDED
        && user.id in UserRows()
        && user.username == request.username == UserRows()[user.id].username
        && user.role == UserRows()[user.id].role
        && request.password.Some?
        && VerifyPassword(request.password.value, UserRows()[user.id].password)
      ensures UniqueUsername(UserRows(), request.username) ==>
        forall id :: id in UserRows() && UserRows()[id].username == request.username ==>
          r == if request.password.None? then InternalServerError(INTERNAL_ERROR)
               else if VerifyPassword(request.password.value, UserRows()[id].password)
               then Ok(LoginReply(LOGIN_SUCCEEDED, UserView(id, request.username, UserRows()[id].role)))
               else Unauthorized(INVALID_CREDENTIALS)
    {
      var user := FindByUsername(request.username);
      if user.None? {
        return Unauthorized(INVALID_CREDENTIALS);
      }
      if request.password.None? {
        return InternalServerError(INTERNAL_ERROR);
      }
      if !VerifyPassword(request.password.value, user.value.entity.password) {
        return Unauthorized(INVALID_CREDENTIALS);
      }
      r := Ok(LoginReply(LOGIN_SUCCEEDED, UserView(user.value.id, user.value.entity.username, user.value.entity.role)));
    }
  }

  /** A user registered with a fresh username can log in with the same password and sees its own Id and role. */
  method RegisterThenLogin(controller: AuthenticationController, username: string, password: string, role: Option<string>)
    returns (registered: ActionResult<string>, loggedIn: ActionResult<LoginReply>)
    requires controller.Valid() && controller.context.Idle()
    requires !UsernameTaken(controller.UserRows(), Some(username))
    modifies controller.context.Sets()
    ensures registered == Ok(USER_REGISTERED)
    ensures loggedIn == Ok(LoginReply(LOGIN_SUCCEEDED, UserView(old(controller.context.users.nextId), Some(username), role)))
  {
    ghost var id := controller.context.users.nextId;
    registered := controller.CreateUser(UserRequest(Some(username), Some(password), role));
    assert id in controller.UserRows() && controller.UserRows()[id].username == Some(username);
    loggedIn := controller.Login(UserRequest(Some(username), Some(password), None));
  }

  /** After registering, a password with a different hash is refused. */
  method RegisterThenLoginWrong(controller: AuthenticationController, username: string, password: string, wrong: string)
    returns (registered: ActionResult<string>, loggedIn: ActionResult<LoginReply>)
    requires controller.Valid() && controller.context.Idle()
    requires !UsernameTaken(controller.UserRows(), Some(username))
    requires controller.HashPassword(wrong) != controller.HashPassword(password)
    modifies controller.context.Sets()
    ensures registered == Ok(USER_REGISTERED)
    ensures loggedIn == Unauthorized(INVALID_CREDENTIALS)
  {
    ghost var id := controller.context.users.nextId;
    registered := controller.CreateUser(UserRequest(Some(username), Some(password), None));
    assert id in controller.UserRows() && controller.UserRows()[id].username == Some(username);
    loggedIn := controller.Login(UserRequest(Some(username), Some(wrong), None));
  }

  /** Registering the same username twice refuses the second and stores nothing for it. */
  method RegisterTwice(controller: AuthenticationController, first: UserRequest, second: UserRequest)
    returns (r1: ActionResult<string>, r2: ActionResult<string>)
    requires controller.Valid() && controller.context.Idle()
    requires first.password.Some? && second.username == first.username
    modifies controller.context.Sets()
    ensures !UsernameTaken(old(controller.UserRows()), first.username) ==> r1 == Ok(USER_REGISTERED)
    ensures r2 == BadRequest(USERNAME_TAKEN)
  {
    ghost var id := controller.context.users.nextId;
    r1 := controller.CreateUser(first);
    if r1.Ok? {
      assert id in controller.UserRows() && controller.UserRows()[id].username == first.username;
    }
    r2 := controller.CreateUser(second);
  }
}
