/**
 * `POST /api/signup`: reject missing fields, check the schema, reject an email or
 * username already taken, then hash the password and append the account. The
 * checks only read the store; the final `create` changes it.
 */
module SignUp {
  import opened Wrappers
  import opened JsText
  import opened Accounts
  import opened Oracles
  import opened Http

  /** The destructured body `{ username, fullname, email, password }`. */
  datatype SignupRequest = SignupRequest(username: Value, fullname: Value, email: Value, password: Value)

  /** `!username || !fullname || !email || !password`. */
  predicate AnyFalsy(req: SignupRequest) {
    Falsy(req.username) || Falsy(req.fullname) || Falsy(req.email) || Falsy(req.password)
  }

  /** What `signupSchema` accepts: the four rules, lengths counted in UTF-16 code units. */
  predicate Conforms(req: SignupRequest, isEmail: string -> bool) {
    && req.username.Str? && Utf16Length(req.username.s) >= 3
    && req.fullname.Str? && Utf16Length(req.fullname.s) >= 1
    && req.email.Str? && isEmail(req.email.s)
    && req.password.Str? && Utf16Length(req.password.s) >= 6
  }

  const UsernameTooShort := "Username must be at least 3 characters"
  const FullnameRequired := "Full name is required"
  const InvalidEmail := "Invalid email address"
  const PasswordTooShort := "Password must be at least 6 characters"

  /** The issues zod reports for one `z.string()` field carrying one rule. */
  function FieldIssues(path: string, v: Value, rule: string -> bool, message: string): (issues: seq<Issue>)
    ensures issues == [] <==> v.Str? && rule(v.s)
    ensures v.Str? && !rule(v.s) ==> issues == [Failed(path, message)]
    ensures !v.Str? ==> issues == [InvalidType(path)]
    ensures |issues| <= 1 && forall i :: 0 <= i < |issues| ==> issues[i].path == path
  {
    match v
    case Str(s) => if rule(s) then [] else [Failed(path, message)]
    case _ => [InvalidType(path)]
  }

  /** `signupSchema.safeParse(...).error.issues`, in the schema's field order. */
  function SchemaIssues(req: SignupRequest, isEmail: string -> bool): (issues: seq<Issue>)
    ensures issues == [] <==> Conforms(req, isEmail)
    ensures req.username.Str? && Utf16Length(req.username.s) < 3 ==>
      issues[0] == Failed("username", UsernameTooShort)
    ensures req.password.Str? && Utf16Length(req.password.s) < 6 ==>
      Failed("password", PasswordTooShort) in issues
    ensures req.email.Str? && !isEmail(req.email.s) ==> Failed("email", InvalidEmail) in issues
  {
    FieldIssues("username", req.username, s => Utf16Length(s) >= 3, UsernameTooShort)
    + FieldIssues("fullname", req.fullname, s => Utf16Length(s) >= 1, FullnameRequired)
    + FieldIssues("email", req.email, isEmail, InvalidEmail)
    + FieldIssues("password", req.password, s => Utf16Length(s) >= 6, PasswordTooShort)
  }

  /** Where the guards of the handler leave a request: answered, or admitted with its four strings. */
  datatype Decision =
    | Reject(response: Response)
    | Accept(username: string, fullname: string, email: string, password: string)

  /**
   * The handler up to the duplicate check. An admitted request carries its
   * fields exactly as sent (untrimmed), satisfies the schema, and collides with
   * no stored email and no stored username.
   */
  function Admit(body: Option<SignupRequest>, users: seq<User>, isEmail: string -> bool,
                 faults: set<Step>): (d: Decision)
    ensures d.Reject? ==> d.response.status in {400, 409, 500}
    ensures d.Reject? && d.response.status == 409 ==> d.response == Conflict
    ensures d.Reject? && d.response.status == 500 ==> d.response == ServerError
    ensures d.Accept? ==>
      && body == Some(SignupRequest(Str(d.username), Str(d.fullname), Str(d.email), Str(d.password)))
      && Conforms(body.value, isEmail) && d.email != ""
    ensures d.Accept? ==> forall u :: u in users ==> u.email != d.email && u.username != d.username
  {
    if body.None? then Reject(ServerError)
    else
      var req := body.value;
      if AnyFalsy(req) then Reject(MissingFields)
      else
        var issues := SchemaIssues(req, isEmail);
        if issues != [] then Reject(ValidationFailed(issues))
        else if FindFirstCall in faults then Reject(ServerError)
        else if FindFirst(users, req.email.s, req.username.s).Some? then Reject(Conflict)
        else Accept(req.username.s, req.fullname.s, req.email.s, req.password.s)
  }

  /** A missing or empty field is answered 400 before the schema or the store is consulted. */
  lemma MissingFieldRejected(body: Option<SignupRequest>, users: seq<User>, isEmail: string -> bool,
                             faults: set<Step>)
    requires body.Some? && AnyFalsy(body.value)
    ensures Admit(body, users, isEmail, faults) == Reject(MissingFields)
  {
  }

  /** A complete request that breaks a schema rule is answered 400 with the rule's issues, before the store is consulted. */
  lemma InvalidRejected(body: Option<SignupRequest>, users: seq<User>, isEmail: string -> bool,
                        faults: set<Step>)
    requires body.Some? && !AnyFalsy(body.value) && !Conforms(body.value, isEmail)
    ensures var issues := SchemaIssues(body.value, isEmail);
      issues != [] && Admit(body, users, isEmail, faults) == Reject(ValidationFailed(issues))
  {
  }

  /** A two-character username is refused with the minimum-length message for `username`. */
  lemma ShortUsernameRejected(users: seq<User>, isEmail: string -> bool, faults: set<Step>)
    ensures var body := SignupRequest(Str("ab"), Str("Alice A"), Str("a@x.com"), Str("secret1"));
      && Admit(Some(body), users, isEmail, faults).Reject?
      && Admit(Some(body), users, isEmail, faults).response.payload.ValidationPayload?
      && Admit(Some(body), users, isEmail, faults).response.payload.details[0]
         == Failed("username", UsernameTooShort)
  {
    var body := SignupRequest(Str("ab"), Str("Alice A"), Str("a@x.com"), Str("secret1"));
    assert Utf16Length("ab") == 2;
    assert !AnyFalsy(body);
  }

  /** A body that cannot be read is answered 500 before anything else is checked. */
  lemma UnreadableBodyRejected(users: seq<User>, isEmail: string -> bool, faults: set<Step>)
    ensures Admit(None, users, isEmail, faults) == Reject(ServerError)
  {
  }

  /** A complete, valid request whose duplicate lookup throws is answered 500, whatever the store holds. */
  lemma LookupFaultRejected(body: Option<SignupRequest>, users: seq<User>, isEmail: string -> bool,
                            faults: set<Step>)
    requires body.Some? && !AnyFalsy(body.value) && Conforms(body.value, isEmail)
    requires FindFirstCall in faults
    ensures Admit(body, users, isEmail, faults) == Reject(ServerError)
  {
  }

  /** A valid request whose email or username is already stored is answered 409. */
  lemma DuplicateRejected(body: Option<SignupRequest>, users: seq<User>, isEmail: string -> bool,
                          faults: set<Step>)
    requires body.Some? && !AnyFalsy(body.value) && Conforms(body.value, isEmail)
    requires FindFirstCall !in faults
    requires exists u :: u in users && MatchesEither(u, body.value.email.s, body.value.username.s)
    ensures Admit(body, users, isEmail, faults) == Reject(Conflict)
  {
  }

  /** A request is admitted exactly when it is complete, valid, the lookup does not throw and nothing collides. */
  lemma AdmitIff(body: Option<SignupRequest>, users: seq<User>, isEmail: string -> bool, faults: set<Step>)
    ensures Admit(body, users, isEmail, faults).Accept? <==>
      && body.Some? && !AnyFalsy(body.value) && Conforms(body.value, isEmail)
      && FindFirstCall !in faults
      && forall u :: u in users ==> !MatchesEither(u, body.value.email.s, body.value.username.s)
  {
  }

  /**
   * The record `create` stores for an admitted request: the fields as sent and,
   * in place of the password, a digest that the password as sent matches and
   * that, for NUL-free passwords within bcrypt's 72-byte input, no other such
   * password matches.
   */
  function NewRecord(d: Decision, o: Oracles, salt: string, newId: string): (u: User)
    requires d.Accept?
    ensures u.username == d.username && u.fullname == d.fullname && u.email == d.email
    ensures u.password == o.hash(d.password, BcryptRounds, salt)
    ensures HashVerifies(o) ==> o.matches(d.password, u.password)
    ensures HashVerifies(o) && Utf8Length(d.password) <= BcryptMaxBytes && '\0' !in d.password ==>
      forall p :: Utf8Length(p) <= BcryptMaxBytes && '\0' !in p && o.matches(p, u.password) ==> p == d.password
  {
    User(newId, d.username, d.fullname, d.email, o.hash(d.password, BcryptRounds, salt))
  }

  function Created(u: User): Response {
    Response(201, SignupPayload("User created successfully", Strip(u)))
  }

  /** The `newUser` table, updated in place by `create`. */
  class UserTable {
    var users: seq<User>

    constructor (initial: seq<User>)
      ensures users == initial
    {
      users := initial;
    }

    /** `prisma.newUser.create({ data })`: appends exactly one record and changes no other. */
    method Create(id: string, username: string, fullname: string, email: string, password: string)
      returns (u: User)
      modifies this
      ensures u == User(id, username, fullname, email, password)
      ensures users == old(users) + [u]
    {
      u := User(id, username, fullname, email, password);
      users := users + [u];
    }
  }

  /**
   * The handler. `body` is None when `req.json()` throws or yields `null`; `salt`
   * is the randomness bcrypt draws; `newId` the identifier the database assigns;
   * `faults` the calls that throw if reached. Every rejection leaves the table as
   * it was; a success appends exactly the new record, whose password is the
   * digest, and answers with that record minus the digest. A table whose emails
   * and usernames are each distinct stays so.
   */
  method HandleSignup(table: UserTable, body: Option<SignupRequest>, o: Oracles, salt: string,
                      newId: string, faults: set<Step>) returns (resp: Response)
    modifies table
    ensures match Admit(body, old(table.users), o.isEmail, faults)
      case Reject(r) => resp == r && table.users == old(table.users)
      case Accept(_, _, _, _) =>
        if HashCall in faults || CreateCall in faults then
          resp == ServerError && table.users == old(table.users)
        else
          var u := NewRecord(Admit(body, old(table.users), o.isEmail, faults), o, salt, newId);
          table.users == old(table.users) + [u] && resp == Created(u)
    ensures resp.status in {201, 400, 409, 500}
    ensures resp.status == 201 ==>
      && body.Some? && body.value.username.Str? && body.value.fullname.Str?
      && body.value.email.Str? && body.value.password.Str?
      && table.users == old(table.users) + [User(newId, body.value.username.s, body.value.fullname.s,
           body.value.email.s, o.hash(body.value.password.s, BcryptRounds, salt))]
    ensures resp.status != 201 ==> table.users == old(table.users)
    ensures Unique(old(table.users)) ==> Unique(table.users)
  {
    var d := Admit(body, table.users, o.isEmail, faults);
    if d.Reject? {
      return d.response;
    }
    if HashCall in faults {
      return ServerError;
    }
    var hashedPassword := o.hash(d.password, BcryptRounds, salt);
    if CreateCall in faults {
      return ServerError;
    }
    if Unique(table.users) {
      AppendFreshKeepsUnique(table.users, NewRecord(d, o, salt, newId));
    }
    var newUser := table.Create(newId, d.username, d.fullname, d.email, hashedPassword);
    resp := Created(newUser);
  }
}
