/**
 * The closed set of failures of the credential flow and the fixed HTTP
 * response each one is turned into. No response carries the cause of the
 * failure: only a status code and a constant label as its body.
 */
module AuthErrors {
  import opened Wrappers

  const UNAUTHORIZED: nat := 401
  const CONFLICT: nat := 409
  const INTERNAL_SERVER_ERROR: nat := 500

  datatype AuthError =
    | InvalidCredentials
    | PasswordHashFailed
    | UserAlreadyExists
    | EmailAlreadyUsed
    | DatabaseOperationFailed

  /** A status code with a plain-text body. */
  datatype Response = Response(status: nat, body: string)

  /**
   * The response sent for a failure. Login problems are the only 401; the two
   * "taken" errors are the only 409; the two server-side faults are 500.
   * The label of `UserAlreadyExists` is `UsernameAlreadyExists`.
   */
  function IntoResponse(e: AuthError): (r: Response)
    ensures r.status == UNAUTHORIZED <==> e == InvalidCredentials
    ensures r.status == CONFLICT <==> e == UserAlreadyExists || e == EmailAlreadyUsed
    ensures r.status == INTERNAL_SERVER_ERROR <==> e == PasswordHashFailed || e == DatabaseOperationFailed
  {
    match e
    case InvalidCredentials => Response(UNAUTHORIZED, "InvalidCredentials")
    case PasswordHashFailed => Response(INTERNAL_SERVER_ERROR, "PasswordHashFailed")
    case UserAlreadyExists => Response(CONFLICT, "UsernameAlreadyExists")
    case EmailAlreadyUsed => Response(CONFLICT, "EmailAlreadyUsed")
    case DatabaseOperationFailed => Response(INTERNAL_SERVER_ERROR, "DatabaseOperationFailed")
  }

  /** The failure a client reads back from a response label. */
  function ErrorForBody(body: string): Option<AuthError>
  {
    if body == "InvalidCredentials" then Some(InvalidCredentials)
    else if body == "PasswordHashFailed" then Some(PasswordHashFailed)
    else if body == "UsernameAlreadyExists" then Some(UserAlreadyExists)
    else if body == "EmailAlreadyUsed" then Some(EmailAlreadyUsed)
    else if body == "DatabaseOperationFailed" then Some(DatabaseOperationFailed)
    else None
  }

  /** Every label reads back as the failure it was sent for, and nothing else reads as a failure. */
  lemma LabelRoundTrip(e: AuthError, body: string)
    ensures ErrorForBody(IntoResponse(e).body) == Some(e)
    ensures ErrorForBody(body).Some? ==> IntoResponse(ErrorForBody(body).value).body == body
  {
  }

  /** Distinct failures give distinct responses: the label alone identifies the failure. */
  lemma IntoResponseInjective(e1: AuthError, e2: AuthError)
    requires IntoResponse(e1) == IntoResponse(e2)
    ensures e1 == e2
  {
  }
}
