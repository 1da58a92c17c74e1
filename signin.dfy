/**
 * `POST /api/signin`: trim the two fields, reject blanks, look the identifier up
 * as an email or a username, compare the password digest, and answer with a
 * token and the record without its digest. The handler only reads the store.
 */
module SignIn {
  import opened Wrappers
  import opened JsText
  import opened Accounts
  import opened Oracles
  import opened Http

  /** The destructured body `{ identifier, password }`. */
  datatype SigninRequest = SigninRequest(identifier: Value, password: Value)

  /** The result of `v?.trim()`: `undefined`, a string, or a thrown TypeError (no `trim` method). */
  datatype Trimmed = Nullish | Text(s: string) | Throws

  function OptionalTrim(v: Value): (t: Trimmed)
    ensures t.Throws? <==> v.Other?
    ensures t.Nullish? <==> v.Absent?
    ensures t.Text? ==> v.Str? && t.s == Trim(v.s)
    ensures Blank(t) <==> v.Absent? || (v.Str? && forall i :: 0 <= i < |v.s| ==> IsJsSpace(v.s[i]))
  {
    match v
    case Absent => Nullish
    case Str(s) => TrimEmptyIff(s); Text(Trim(s))
    case Other(_) => Throws
  }

  /** `!t` for a value produced by `?.trim()`. */
  predicate Blank(t: Trimmed) {
    t.Nullish? || t == Text("")
  }

  /** `signinSchema.safeParse(...)`: both fields need a length of at least 1. */
  function SchemaIssues(identifier: string, password: string): (issues: seq<Issue>)
    ensures issues == [] <==> identifier != "" && password != ""
  {
    (if Utf16Length(identifier) >= 1 then [] else [Failed("identifier", "identifier is required")])
    + (if Utf16Length(password) >= 1 then [] else [Failed("password", "Password is required")])
  }

  /** The response to a successful sign-in of `u`. */
  function SignedIn(o: Oracles, env: Option<string>, u: User): Response {
    var token := o.sign(Claims(u.id, u.username, u.email), Secret(env));
    Response(200, SigninPayload("Signin successful", Strip(u), token))
  }

  /**
   * The handler. `body` is None when `req.json()` throws or yields `null`;
   * `faults` names the library and database calls that throw if reached.
   * Every 400 is the missing-fields answer (the validation branch is never
   * taken), every 401 is the same invalid-credentials answer, every 500 the
   * same internal-error answer, and a 200 signs in a stored record.
   */
  function Signin(body: Option<SigninRequest>, users: seq<User>, o: Oracles, env: Option<string>,
                  faults: set<Step>): (r: Response)
    ensures r.status in {200, 400, 401, 500}
    ensures r.status == 400 ==> r == MissingFields
    ensures r.status == 401 ==> r == InvalidCredentials
    ensures r.status == 500 ==> r == ServerError
    ensures r.status == 200 ==> exists i :: 0 <= i < |users| && r == SignedIn(o, env, users[i])
  {
    if body.None? then ServerError
    else
      var credential := OptionalTrim(body.value.identifier);
      var trimmedPassword := OptionalTrim(body.value.password);
      if credential.Throws? || trimmedPassword.Throws? then ServerError
      else if Blank(credential) || Blank(trimmedPassword) then MissingFields
      else
        var issues := SchemaIssues(credential.s, trimmedPassword.s);
        if issues != [] then ValidationFailed(issues)
        else Authenticate(credential.s, trimmedPassword.s, users, o, env, faults)
  }

  /**
   * The handler after validation, given the trimmed identifier and password: look the identifier
   * up as an email or a username, compare the password with that record's
   * digest, and sign its claims. Not found and wrong password share one answer.
   */
  function Authenticate(credential: string, password: string, users: seq<User>, o: Oracles,
                        env: Option<string>, faults: set<Step>): (r: Response)
    ensures r.status in {200, 401, 500}
    ensures r.status == 401 ==> r == InvalidCredentials
    ensures r.status == 500 ==> r == ServerError
    ensures var found := FindFirst(users, credential, credential);
      r.status == 200 <==>
        && FindFirstCall !in faults && found.Some?
        && CompareCall !in faults && o.matches(password, users[found.value].password)
        && SignCall !in faults
    ensures var found := FindFirst(users, credential, credential);
      r.status == 401 <==>
        && FindFirstCall !in faults
        && (found.None? || (CompareCall !in faults && !o.matches(password, users[found.value].password)))
    ensures r.status == 200 ==> r == SignedIn(o, env, users[FindFirst(users, credential, credential).value])
  {
    if FindFirstCall in faults then ServerError
    else match FindFirst(users, credential, credential)
      case None => InvalidCredentials
      case Some(i) =>
        var user := users[i];
        if CompareCall in faults then ServerError
        else if !o.matches(password, user.password) then InvalidCredentials
        else if SignCall in faults then ServerError
        else SignedIn(o, env, user)
  }

  /** A request whose fields are both strings that stay non-empty after trimming. */
  predicate WellFormed(body: Option<SigninRequest>) {
    && body.Some? && body.value.identifier.Str? && body.value.password.Str?
    && Trim(body.value.identifier.s) != "" && Trim(body.value.password.s) != ""
  }

  /**
   * A well-formed request passes the schema and is authenticated with its trimmed
   * fields; any other request is answered 400 or 500 without consulting the store.
   */
  lemma WellFormedAuthenticates(body: Option<SigninRequest>, users: seq<User>, o: Oracles,
                                env: Option<string>, faults: set<Step>)
    ensures WellFormed(body) ==>
      Signin(body, users, o, env, faults)
      == Authenticate(Trim(body.value.identifier.s), Trim(body.value.password.s), users, o, env, faults)
    ensures !WellFormed(body) ==> Signin(body, users, o, env, faults).status in {400, 500}
  {
    if body.Some? {
      var credential := OptionalTrim(body.value.identifier);
      var trimmedPassword := OptionalTrim(body.value.password);
      if WellFormed(body) {
        assert credential == Text(Trim(body.value.identifier.s));
        assert trimmedPassword == Text(Trim(body.value.password.s));
        assert SchemaIssues(credential.s, trimmedPassword.s) == [];
      } else if !credential.Throws? && !trimmedPassword.Throws? {
        assert Blank(credential) || Blank(trimmedPassword);
      }
    }
  }

  /** A missing or blank field is answered with 400 before any lookup: the answer is the same for every store and fault set. */
  lemma BlankFieldRejected(body: Option<SigninRequest>, users: seq<User>, o: Oracles, env: Option<string>,
                           faults: set<Step>)
    requires body.Some? && !body.value.identifier.Other? && !body.value.password.Other?
    requires !WellFormed(body)
    ensures Signin(body, users, o, env, faults) == MissingFields
  {
  }

  /** A field that is present but not a string makes `trim` throw: 500. */
  lemma NonStringFieldFaults(body: Option<SigninRequest>, users: seq<User>, o: Oracles, env: Option<string>,
                             faults: set<Step>)
    requires body.Some? && (body.value.identifier.Other? || body.value.password.Other?)
    ensures Signin(body, users, o, env, faults) == ServerError
  {
  }

  /** Once the blank check passes, the schema always accepts, so "Validation failed" is never answered. */
  lemma ValidationUnreachable(body: Option<SigninRequest>, users: seq<User>, o: Oracles, env: Option<string>,
                              faults: set<Step>)
    requires WellFormed(body)
    ensures SchemaIssues(Trim(body.value.identifier.s), Trim(body.value.password.s)) == []
    ensures !Signin(body, users, o, env, faults).payload.ValidationPayload?
  {
    WellFormedAuthenticates(body, users, o, env, faults);
  }

  /** The record a well-formed request looks up: the first whose email or username is the trimmed identifier. */
  function LookUp(body: Option<SigninRequest>, users: seq<User>): (r: Option<nat>)
    requires WellFormed(body)
    ensures r.Some? ==> r.value < |users|
  {
    var id := Trim(body.value.identifier.s);
    FindFirst(users, id, id)
  }

  /**
   * Status 200 exactly when a record is found and the TRIMMED password matches its
   * digest (and no call throws); the answer then carries the claims
   * `{ userId, username, email }` of that record signed with the configured or
   * fallback secret, and the record without its digest.
   */
  lemma SigninOkIff(body: Option<SigninRequest>, users: seq<User>, o: Oracles, env: Option<string>,
                    faults: set<Step>)
    ensures var r := Signin(body, users, o, env, faults);
      r.status == 200 <==>
        && WellFormed(body) && LookUp(body, users).Some?
        && o.matches(Trim(body.value.password.s), users[LookUp(body, users).value].password)
        && FindFirstCall !in faults && CompareCall !in faults && SignCall !in faults
    ensures var r := Signin(body, users, o, env, faults);
      r.status == 200 ==>
        var u := users[LookUp(body, users).value];
        r.payload == SigninPayload("Signin successful", Strip(u),
                                   o.sign(Claims(u.id, u.username, u.email), Secret(env)))
  {
    WellFormedAuthenticates(body, users, o, env, faults);
  }

  /**
   * An unknown identifier and a wrong password get the identical answer, and
   * these are the only two ways to get a 401.
   */
  lemma InvalidCredentialsIff(body: Option<SigninRequest>, users: seq<User>, o: Oracles, env: Option<string>,
                              faults: set<Step>)
    ensures var r := Signin(body, users, o, env, faults);
      r.status == 401 <==>
        && WellFormed(body) && FindFirstCall !in faults
        && (|| LookUp(body, users).None?
            || (&& CompareCall !in faults
                && !o.matches(Trim(body.value.password.s), users[LookUp(body, users).value].password)))
    ensures Signin(body, users, o, env, faults).status == 401 ==>
      Signin(body, users, o, env, faults) == InvalidCredentials
  {
    WellFormedAuthenticates(body, users, o, env, faults);
  }

  /** The handler sees only the trimmed fields: requests that trim alike are answered alike. */
  lemma OnlyTrimmedFieldsMatter(b1: Option<SigninRequest>, b2: Option<SigninRequest>, users: seq<User>,
                                o: Oracles, env: Option<string>, faults: set<Step>)
    requires b1.Some? && b1.value.identifier.Str? && b1.value.password.Str?
    requires b2.Some? && b2.value.identifier.Str? && b2.value.password.Str?
    requires Trim(b1.value.identifier.s) == Trim(b2.value.identifier.s)
    requires Trim(b1.value.password.s) == Trim(b2.value.password.s)
    ensures Signin(b1, users, o, env, faults) == Signin(b2, users, o, env, faults)
  {
    WellFormedAuthenticates(b1, users, o, env, faults);
    WellFormedAuthenticates(b2, users, o, env, faults);
  }

  /**
   * A digest made from a password with whitespace at either end never matches
   * what sign-in compares, whatever password the client sends, because sign-in
   * compares the trimmed input and a trimmed string has no such whitespace.
   * This holds for NUL-free passwords within bcrypt's 72-byte input, where
   * distinct passwords give distinct bcrypt keys.
   */
  lemma PaddedPasswordNeverMatches(o: Oracles, plain: string, rounds: nat, salt: string,
                                                      sent: string)
    requires HashVerifies(o)
    requires Trim(plain) != plain
    requires Utf8Length(plain) <= BcryptMaxBytes && Utf8Length(Trim(sent)) <= BcryptMaxBytes
    requires '\0' !in plain && '\0' !in Trim(sent)
    ensures !o.matches(Trim(sent), o.hash(plain, rounds, salt))
  {
    if Trim(sent) == plain {
      TrimIdempotent(sent);
    }
  }
}
