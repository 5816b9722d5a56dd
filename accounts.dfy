/** User accounts: registration under a unique username and the login check.
    Password hashing is outside the model: registration receives the hash,
    and login receives the hash checker as a function. */
module Accounts {
  import opened Common
  import opened Models

  /** The first user with the given username. */
  function FindUser(users: seq<User>, username: string): (r: Option<User>)
    ensures r.Some? ==> r.value in users && r.value.username == username
    ensures r.None? <==> forall u :: u in users ==> u.username != username
  {
    if users == [] then None
    else if users[0].username == username then Some(users[0])
    else FindUser(users[1..], username)
  }

  /** "Register": a new user row with the given password hash; a username
      already taken violates the UNIQUE constraint and nothing is written. */
  function RegisterUser(db: Db, username: string, passwordHash: string): (r: Result<Db, Error>)
    ensures r.Err? <==> exists u :: u in db.users && u.username == username
    ensures r.Err? ==> r.error == DuplicateUsername
    ensures r.Ok? ==> r.value == db.(users := db.users + [User(db.nextUserId, username, passwordHash)],
                                     nextUserId := db.nextUserId + 1)
  {
    if FindUser(db.users, username).Some? then Err(DuplicateUsername)
    else Ok(db.(users := db.users + [User(db.nextUserId, username, passwordHash)],
                nextUserId := db.nextUserId + 1))
  }

  lemma RegisterUserKeepsValid(db: Db, username: string, passwordHash: string)
    requires Valid(db) && RegisterUser(db, username, passwordHash).Ok?
    ensures Valid(RegisterUser(db, username, passwordHash).value)
  {
    var u := User(db.nextUserId, username, passwordHash);
    AppendKeepsDistinct(db.users, u, Username);
    AppendKeepsDistinct(db.users, u, UserId);
  }

  /** "Login": false for an unknown username, otherwise whatever the hash
      checker says about the password and the stored hash. */
  function LoginUser(db: Db, username: string, password: string,
                     checkPassword: (string, string) -> bool): (ok: bool)
    ensures ok ==> exists u :: u in db.users && u.username == username && checkPassword(password, u.passwordHash)
    ensures (forall u :: u in db.users ==> u.username != username) ==> !ok
  {
    match FindUser(db.users, username)
    case None => false
    case Some(u) => checkPassword(password, u.passwordHash)
  }

  /** With unique usernames the check is made against THE user of that name:
      login succeeds exactly when that user's hash accepts the password. */
  lemma LoginChecksTheNamedUser(db: Db, u: User, password: string, checkPassword: (string, string) -> bool)
    requires Valid(db) && u in db.users
    ensures LoginUser(db, u.username, password, checkPassword) <==> checkPassword(password, u.passwordHash)
  {
    var found := FindUser(db.users, u.username).value;
    DistinctKeyIdentifies(db.users, Username, found, u);
  }

  /** A user who has just registered can log in with any password the
      stored hash accepts. */
  lemma RegisterThenLogin(db: Db, username: string, password: string, passwordHash: string,
                          checkPassword: (string, string) -> bool)
    requires Valid(db) && RegisterUser(db, username, passwordHash).Ok?
    requires checkPassword(password, passwordHash)
    ensures LoginUser(RegisterUser(db, username, passwordHash).value, username, password, checkPassword)
  {
    var r := RegisterUser(db, username, passwordHash).value;
    RegisterUserKeepsValid(db, username, passwordHash);
    var u := User(db.nextUserId, username, passwordHash);
    assert u in r.users;
    LoginChecksTheNamedUser(r, u, password, checkPassword);
  }
}
