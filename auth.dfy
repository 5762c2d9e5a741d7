/**
 * The two request handlers of the authentication service, `register` and
 * `login`, over an in-memory `users` table. Every store call can fail; which
 * calls fail is given by boolean parameters, standing for the database's
 * connectivity. Hashing is as in `Passwords`.
 */
module Auth {
  import opened Wrappers
  import opened Phc
  import opened AuthErrors
  import opened Passwords
  import opened Users

  datatype RegisterRequest = RegisterRequest(username: string, email: string, password: string)
  datatype LoginRequest = LoginRequest(username: string, password: string)

  /** The JSON body of a successful response. */
  datatype Reply = Reply(msg: string)

  /** How a database call fails: the driver reports an error, or a single-row fetch gets no row. */
  datatype DbError = QueryFailed | RowNotFound

  /** Whether the row collides with a registration of `req`. */
  predicate Collides(req: RegisterRequest, row: UserRecord) {
    Selects(ByUsernameOrEmail(req.username, req.email), row)
  }

  /**
   * What `register` decides before it writes: the row to insert, or the
   * failure. A registration goes ahead exactly when the lookup works, no row
   * collides and hashing works; the row then holds the requested username and
   * email and the hash, never the password itself. A store error is reported
   * exactly when the lookup fails. A reported collision is always a real one,
   * and a row without an email never causes `EmailAlreadyUsed`. The username
   * check wins whenever every row holding the email also holds the username,
   * in particular when the same username and email are registered again.
   */
  function Admission(rows: seq<UserRecord>, req: RegisterRequest, salt: Field, kdf: Kdf, lookupFails: bool)
    : (r: Result<UserRecord, AuthError>)
    ensures r == Err(DatabaseOperationFailed) <==> lookupFails
    ensures r.Ok? <==>
      !lookupFails && (forall i | 0 <= i < |rows| :: !Collides(req, rows[i])) &&
      HashPassword(req.password, salt, kdf).Ok?
    ensures r.Ok? ==>
      r.value == UserRecord(req.username, Some(req.email), HashPassword(req.password, salt, kdf).value)
    ensures r == Err(PasswordHashFailed) <==>
      !lookupFails && (forall i | 0 <= i < |rows| :: !Collides(req, rows[i])) &&
      HashPassword(req.password, salt, kdf).Err?
    ensures r == Err(UserAlreadyExists) ==>
      exists i | 0 <= i < |rows| :: rows[i].username == req.username
    ensures r == Err(EmailAlreadyUsed) ==>
      exists i | 0 <= i < |rows| :: rows[i].username != req.username && rows[i].email == Some(req.email)
    ensures
      (!lookupFails && (exists i | 0 <= i < |rows| :: rows[i].username == req.username) &&
       (forall i | 0 <= i < |rows| :: rows[i].email == Some(req.email) ==> rows[i].username == req.username))
      ==> r == Err(UserAlreadyExists)
    ensures
      (!lookupFails && (exists i | 0 <= i < |rows| :: rows[i].email == Some(req.email)) &&
       (forall i | 0 <= i < |rows| :: rows[i].username != req.username))
      ==> r == Err(EmailAlreadyUsed)
    ensures r.Err? ==> r.error != InvalidCredentials
  {
    if lookupFails then Err(DatabaseOperationFailed)
    else
      var found := FirstSelected(rows, ByUsernameOrEmail(req.username, req.email));
      if found.Some? && found.value.username == req.username then Err(UserAlreadyExists)
      else if found.Some? && found.value.email == Some(req.email) then Err(EmailAlreadyUsed)
      else
        match HashPassword(req.password, salt, kdf)
        case Err(e) => Err(e)
        case Ok(hash) => Ok(UserRecord(req.username, Some(req.email), hash))
  }

  /**
   * What `login` answers. It succeeds exactly when the lookup works, a row
   * has the username and the password verifies against that row's hash.
   * Its only failures are `DatabaseOperationFailed` and `InvalidCredentials`:
   * an unknown user, a wrong password and an unparsable stored hash all look
   * the same to the caller.
   */
  function LoginOutcome(rows: seq<UserRecord>, req: LoginRequest, kdf: Kdf, lookupFails: bool)
    : (r: Result<Reply, AuthError>)
    ensures lookupFails ==> r == Err(DatabaseOperationFailed)
    ensures r.Ok? ==> r.value == Reply("")
    ensures r.Err? ==> r.error == DatabaseOperationFailed || r.error == InvalidCredentials
    ensures !lookupFails && r.Err? ==> r.error == InvalidCredentials
    ensures !lookupFails && (forall i | 0 <= i < |rows| :: rows[i].username != req.username) ==>
      r == Err(InvalidCredentials)
    ensures r.Ok? ==>
      exists i | 0 <= i < |rows| :: rows[i].username == req.username &&
        VerifyPassword(req.password, rows[i].passwordHash, kdf) == Ok(true)
    ensures UniqueIdentities(rows) ==>
      (r.Ok? <==>
        (!lookupFails &&
         exists i | 0 <= i < |rows| :: rows[i].username == req.username &&
           VerifyPassword(req.password, rows[i].passwordHash, kdf) == Ok(true)))
  {
    if lookupFails then Err(DatabaseOperationFailed)
    else
      match FirstSelected(rows, ByUsername(req.username))
      case None => Err(InvalidCredentials)
      case Some(user) =>
        match VerifyPassword(req.password, user.passwordHash, kdf)
        case Err(e) => Err(e)
        case Ok(matches) => if matches then Ok(Reply("")) else Err(InvalidCredentials)
  }

  /** The `users` table and the handlers that query and insert into it. */
  class UserStore {
    var rows: seq<UserRecord>

    /** The identities the table's rows hold are unique. */
    ghost predicate Valid()
      reads this
    {
      UniqueIdentities(rows)
    }

    constructor ()
      ensures Valid() && rows == []
    {
      rows := [];
    }

    /** A `SELECT` fetched with `fetch_optional`: the first selected row, if any. */
    method FetchOptional(q: Query, fails: bool) returns (r: Result<Option<UserRecord>, DbError>)
      ensures fails ==> r == Err(QueryFailed)
      ensures !fails ==> r.Ok? && r.value == FirstSelected(rows, q)
    {
      if fails {
        return Err(QueryFailed);
      }
      r := Ok(FirstSelected(rows, q));
    }

    /**
     * An `INSERT` without `RETURNING` fetched with `fetch_one`: the row is
     * written, but the statement yields no row, so the fetch reports
     * `RowNotFound`. A failed statement writes nothing.
     */
    method InsertFetchOne(row: UserRecord, fails: bool) returns (r: Result<UserRecord, DbError>)
      modifies this
      ensures fails ==> r == Err(QueryFailed) && rows == old(rows)
      ensures !fails ==> r == Err(RowNotFound) && rows == old(rows) + [row]
    {
      if fails {
        return Err(QueryFailed);
      }
      rows := rows + [row];
      r := Err(RowNotFound);
    }

    /** An `INSERT` run with `execute`: the number of rows written. A failed statement writes nothing. */
    method InsertExecute(row: UserRecord, fails: bool) returns (r: Result<nat, DbError>)
      modifies this
      ensures fails ==> r == Err(QueryFailed) && rows == old(rows)
      ensures !fails ==> r == Ok(1) && rows == old(rows) + [row]
    {
      if fails {
        return Err(QueryFailed);
      }
      rows := rows + [row];
      r := Ok(1);
    }

    /**
     * The part of `register` before the insert: the combined lookup, the
     * username check, then the email check, then hashing.
     */
    method PrepareRow(req: RegisterRequest, salt: Field, kdf: Kdf, lookupFails: bool)
      returns (r: Result<UserRecord, AuthError>)
      ensures r == Admission(rows, req, salt, kdf, lookupFails)
    {
      var user := FetchOptional(ByUsernameOrEmail(req.username, req.email), lookupFails);
      if user.Err? {
        return Err(DatabaseOperationFailed);
      }
      if user.value.Some? {
        var found := user.value.value;
        if found.username == req.username {
          return Err(UserAlreadyExists);
        }
        if found.email.Some? {
          if found.email.value == req.email {
            return Err(EmailAlreadyUsed);
          }
        }
      }
      var hash := HashPassword(req.password, salt, kdf);
      if hash.Err? {
        return Err(hash.error);
      }
      r := Ok(UserRecord(req.username, Some(req.email), hash.value));
    }

    /**
     * `register` as the source writes it, inserting with `fetch_one`
     * semantics. It never succeeds: when the row is written the handler still
     * reports `DatabaseOperationFailed`.
     */
    method RegisterAsWritten(req: RegisterRequest, salt: Field, kdf: Kdf, lookupFails: bool, insertFails: bool)
      returns (r: Result<Reply, AuthError>)
      modifies this
      ensures old(Valid()) ==> Valid()
      ensures r.Err?
      ensures var d := Admission(old(rows), req, salt, kdf, lookupFails);
        (d.Err? ==> r == Err(d.error) && rows == old(rows)) &&
        (d.Ok? && insertFails ==> r == Err(DatabaseOperationFailed) && rows == old(rows)) &&
        (d.Ok? && !insertFails ==> r == Err(DatabaseOperationFailed) && rows == old(rows) + [d.value])
    {
      var row := PrepareRow(req, salt, kdf, lookupFails);
      if row.Err? {
        return Err(row.error);
      }
      AdmissionKeepsUnique(rows, req, salt, kdf);
      var inserted := InsertFetchOne(row.value, insertFails);
      if inserted.Err? {
        return Err(DatabaseOperationFailed);
      }
      r := Ok(Reply(""));
    }

    /**
     * `register` with the insert run for its effect. It succeeds exactly when
     * the admission check passes and the insert works, and then the table
     * gains exactly the admitted row; on every failure the table is unchanged.
     */
    method Register(req: RegisterRequest, salt: Field, kdf: Kdf, lookupFails: bool, insertFails: bool)
      returns (r: Result<Reply, AuthError>)
      modifies this
      ensures old(Valid()) ==> Valid()
      ensures var d := Admission(old(rows), req, salt, kdf, lookupFails);
        (d.Err? ==> r == Err(d.error) && rows == old(rows)) &&
        (d.Ok? && insertFails ==> r == Err(DatabaseOperationFailed) && rows == old(rows)) &&
        (d.Ok? && !insertFails ==> r == Ok(Reply("")) && rows == old(rows) + [d.value])
    {
      var row := PrepareRow(req, salt, kdf, lookupFails);
      if row.Err? {
        return Err(row.error);
      }
      AdmissionKeepsUnique(rows, req, salt, kdf);
      var inserted := InsertExecute(row.value, insertFails);
      if inserted.Err? {
        return Err(DatabaseOperationFailed);
      }
      r := Ok(Reply(""));
    }

    /** `login`: reads the table and never changes it. */
    method Login(req: LoginRequest, kdf: Kdf, lookupFails: bool) returns (r: Result<Reply, AuthError>)
      ensures r == LoginOutcome(rows, req, kdf, lookupFails)
    {
      var user := FetchOptional(ByUsername(req.username), lookupFails);
      if user.Err? {
        return Err(DatabaseOperationFailed);
      }
      if user.value.None? {
        return Err(InvalidCredentials);
      }
      var verified := VerifyPassword(req.password, user.value.value.passwordHash, kdf);
      if verified.Err? {
        return Err(verified.error);
      }
      if verified.value {
        r := Ok(Reply(""));
      } else {
        r := Err(InvalidCredentials);
      }
    }
  }

  /** An admitted row keeps the table's identities unique. */
  lemma AdmissionKeepsUnique(rows: seq<UserRecord>, req: RegisterRequest, salt: Field, kdf: Kdf)
    ensures UniqueIdentities(rows) && Admission(rows, req, salt, kdf, false).Ok? ==>
      UniqueIdentities(rows + [Admission(rows, req, salt, kdf, false).value])
  {
    if UniqueIdentities(rows) && Admission(rows, req, salt, kdf, false).Ok? {
      AppendKeepsUnique(rows, Admission(rows, req, salt, kdf, false).value, req.email);
    }
  }

  /** After a registration is admitted and written, logging in with the same password succeeds. */
  lemma {:induction false} LoginAfterRegister(rows: seq<UserRecord>, req: RegisterRequest, salt: Field, kdf: Kdf)
    requires Admission(rows, req, salt, kdf, false).Ok?
    ensures LoginOutcome(rows + [Admission(rows, req, salt, kdf, false).value],
      LoginRequest(req.username, req.password), kdf, false) == Ok(Reply(""))
  {
    var row := Admission(rows, req, salt, kdf, false).value;
    assert forall i | 0 <= i < |rows| :: rows[i].username != row.username by {
      assert forall i | 0 <= i < |rows| :: !Collides(req, rows[i]);
    }
    FirstSelectedAppend(rows, row);
    HashVerifyRoundTrip(req.password, salt, kdf);
  }

  /**
   * Once a username is in the table, registering it again never succeeds,
   * whatever email comes with it; the failure is `UserAlreadyExists` unless
   * another row already holds the new email.
   */
  lemma {:induction false} ReRegisterRejected(rows: seq<UserRecord>, req: RegisterRequest, salt: Field, kdf: Kdf,
    again: RegisterRequest, salt2: Field)
    requires Admission(rows, req, salt, kdf, false).Ok?
    requires again.username == req.username
    ensures var next := rows + [Admission(rows, req, salt, kdf, false).value];
      var r := Admission(next, again, salt2, kdf, false);
      r == Err(UserAlreadyExists) || r == Err(EmailAlreadyUsed)
    ensures (forall i | 0 <= i < |rows| :: rows[i].email != Some(again.email)) ==>
      Admission(rows + [Admission(rows, req, salt, kdf, false).value], again, salt2, kdf, false) == Err(UserAlreadyExists)
  {
    var row := Admission(rows, req, salt, kdf, false).value;
    var next := rows + [row];
    assert next[|rows|] == row;
    assert Collides(again, next[|rows|]);
    if forall i | 0 <= i < |rows| :: rows[i].email != Some(again.email) {
      if again.email != req.email {
        assert forall i | 0 <= i < |next| :: next[i].email != Some(again.email) by {
          assert forall i | 0 <= i < |rows| :: next[i] == rows[i];
        }
      } else {
        var found := FirstSelected(next, ByUsernameOrEmail(again.username, again.email));
        assert found.value.username == again.username by {
          assert forall i | 0 <= i < |rows| :: !Collides(req, rows[i]);
          assert forall i | 0 <= i < |rows| :: next[i] == rows[i];
        }
      }
    }
  }
}
