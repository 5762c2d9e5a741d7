/**
 * Whole-request sequences against a fresh table, as a client sees them.
 * Each needs only the contracts of the handlers and of hashing.
 */
module Scenarios {
  import opened Wrappers
  import opened Phc
  import opened AuthErrors
  import opened Passwords
  import opened Users
  import opened Auth

  /**
   * Register bob, log in with his password, log in with a wrong one: the
   * first two succeed and the last gets `InvalidCredentials`.
   */
  method BobSignsIn(kdf: Kdf, salt: Field) returns (registered: Result<Reply, AuthError>,
    accepted: Result<Reply, AuthError>, rejected: Result<Reply, AuthError>)
    requires kdf(DEFAULT_CONFIG, "pw1", salt).Some?
    requires kdf(DEFAULT_CONFIG, "wrong", salt) != kdf(DEFAULT_CONFIG, "pw1", salt)
    ensures registered == Ok(Reply(""))
    ensures accepted == Ok(Reply(""))
    ensures rejected == Err(InvalidCredentials)
  {
    var store := new UserStore();
    var req := RegisterRequest("bob", "b@x.com", "pw1");
    registered := store.Register(req, salt, kdf, false, false);
    LoginAfterRegister([], req, salt, kdf);
    assert [] + store.rows == store.rows;
    accepted := store.Login(LoginRequest("bob", "pw1"), kdf, false);
    VerifyOtherPassword("pw1", "wrong", salt, kdf);
    rejected := store.Login(LoginRequest("bob", "wrong"), kdf, false);
  }

  /**
   * Register alice; the same username with another email is refused as
   * `UserAlreadyExists`, a new username with her email as `EmailAlreadyUsed`;
   * an unknown user and a wrong password get the same response.
   */
  method AliceCollisions(kdf: Kdf, salt: Field) returns (registered: Result<Reply, AuthError>,
    sameUsername: Result<Reply, AuthError>, sameEmail: Result<Reply, AuthError>,
    unknownUser: Result<Reply, AuthError>, wrongPassword: Result<Reply, AuthError>)
    requires kdf(DEFAULT_CONFIG, "secret", salt).Some?
    requires kdf(DEFAULT_CONFIG, "guess", salt) != kdf(DEFAULT_CONFIG, "secret", salt)
    ensures registered == Ok(Reply(""))
    ensures sameUsername == Err(UserAlreadyExists)
    ensures sameEmail == Err(EmailAlreadyUsed)
    ensures unknownUser == wrongPassword == Err(InvalidCredentials)
    ensures IntoResponse(unknownUser.error) == IntoResponse(wrongPassword.error)
  {
    var store := new UserStore();
    registered := store.Register(RegisterRequest("alice", "a@x.com", "secret"), salt, kdf, false, false);
    var row := store.rows[0];
    assert store.rows == [row];
    sameUsername := store.Register(RegisterRequest("alice", "b@x.com", "other"), salt, kdf, false, false);
    sameEmail := store.Register(RegisterRequest("carol", "a@x.com", "pw"), salt, kdf, false, false);
    unknownUser := store.Login(LoginRequest("mallory", "secret"), kdf, false);
    VerifyOtherPassword("secret", "guess", salt, kdf);
    wrongPassword := store.Login(LoginRequest("alice", "guess"), kdf, false);
  }

  /**
   * `register` as written: a fresh registration writes bob's row yet reports
   * `DatabaseOperationFailed`; bob can then log in, and registering him
   * again is refused as `UserAlreadyExists`.
   */
  method InsertReportedAsFailure(kdf: Kdf, salt: Field) returns (reported: Result<Reply, AuthError>,
    rows: seq<UserRecord>, accepted: Result<Reply, AuthError>, retried: Result<Reply, AuthError>)
    requires kdf(DEFAULT_CONFIG, "pw1", salt).Some?
    ensures reported == Err(DatabaseOperationFailed)
    ensures |rows| == 1 && rows[0].username == "bob"
    ensures accepted == Ok(Reply(""))
    ensures retried == Err(UserAlreadyExists)
  {
    var store := new UserStore();
    var req := RegisterRequest("bob", "b@x.com", "pw1");
    reported := store.RegisterAsWritten(req, salt, kdf, false, false);
    rows := store.rows;
    LoginAfterRegister([], req, salt, kdf);
    ReRegisterRejected([], req, salt, kdf, req, salt);
    assert [] + store.rows == store.rows;
    accepted := store.Login(LoginRequest("bob", "pw1"), kdf, false);
    retried := store.RegisterAsWritten(req, salt, kdf, false, false);
  }
}
