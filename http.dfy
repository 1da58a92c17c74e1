/**
 * What the route handlers receive and answer: JSON field values as they come out
 * of `req.json()`, zod issues, the JSON responses with their status codes, and the
 * steps at which a library or the database can throw.
 */
module Http {
  import opened Accounts

  /**
   * One field of a parsed JSON body. `Absent` is `undefined` or `null`; `Other` is
   * any non-string JSON value (number, boolean, object, array) with its
   * JavaScript truthiness.
   */
  datatype Value = Absent | Str(s: string) | Other(truthy: bool)

  /** `!v` in JavaScript. */
  predicate Falsy(v: Value) {
    v.Absent? || v == Str("") || (v.Other? && !v.truthy)
  }

  /** A zod issue: a value that is not a string, or a string that fails a rule (with the rule's message). */
  datatype Issue = InvalidType(path: string) | Failed(path: string, message: string)

  datatype Payload =
    | ErrorPayload(error: string)
    | ValidationPayload(error: string, details: seq<Issue>)
    | SigninPayload(message: string, user: PublicUser, token: string)
    | SignupPayload(message: string, user: PublicUser)

  datatype Response = Response(status: nat, payload: Payload)

  /** An operation inside a handler's `try` block that may throw. */
  datatype Step = FindFirstCall | CompareCall | SignCall | HashCall | CreateCall

  const MissingFields := Response(400, ErrorPayload("Missing required fields"))
  const InvalidCredentials := Response(401, ErrorPayload("Invalid credentials"))
  const Conflict := Response(409, ErrorPayload("User with this email or username already exists"))
  const ServerError := Response(500, ErrorPayload("Internal server error"))

  function ValidationFailed(issues: seq<Issue>): Response {
    Response(400, ValidationPayload("Validation failed", issues))
  }
}
