# Authentication core of the AI-Chat application, in Dafny

The application lets users sign up and sign in with a username or email plus a
password. After sign-in, a signed bearer token authenticates them. This project
models the three pieces of server logic behind that:

- the sign-up route (`app/api/signup/route.ts`). It rejects missing fields,
  checks the schema, refuses an email or username already taken, hashes the
  password and appends the account.
- the sign-in route (`app/api/signin/route.ts`). It trims the identifier and
  password, rejects blanks, looks the identifier up as an email *or* a
  username, compares the password digest, signs the claims
  `{userId, username, email}`, and returns the record without its digest.
- the token helpers (`lib/auth.ts`). `verifyToken` maps any verification failure
  to `null`. `getUserFromRequest` takes the token out of an
  `Authorization: Bearer <token>` header.

Modules, one per concern:

| file | module | what it holds |
|---|---|---|
| `wrappers.dfy` | `Wrappers` | `Option`, for `null` / `undefined` |
| `js_text.dfy` | `JsText` | `String.prototype.trim` (ECMAScript whitespace and line terminators), `startsWith`, and `length` in UTF-16 code units (what zod's `.min` counts) |
| `accounts.dfy` | `Accounts` | the stored `User` record, the record without its digest, Prisma's `findFirst` with `OR: [{email}, {username}]`, and the "emails and usernames distinct" store invariant |
| `oracles.dfy` | `Oracles` | bcrypt, jsonwebtoken and zod's email check as a bundle of function parameters; the `JWT_SECRET \|\| "fallback-secret"` expression; the two assumptions lemmas may require (`HashVerifies`, `SignVerifies`) |
| `http.dfy` | `Http` | JSON field values with JavaScript truthiness, zod issues, responses, and the calls that can throw |
| `auth.dfy` | `Auth` | `lib/auth.ts` |
| `signin.dfy` | `SignIn` | the sign-in handler, a pure function of request, store, oracles, secret and faults |
| `signup.dfy` | `SignUp` | the sign-up guards as a pure function (`Admit`); the table as a class whose `Create` appends in place; the handler as a method on that table |
| `flows.dfy` | `Flows` | how the three files behave together |

How the environment becomes parameters:

- A request body is `Option<…>`. `None` stands for `req.json()` throwing or
  yielding `null`, which are the body failures that reach the `catch`.
- Each field is `Absent` (undefined or null), `Str(s)`, or `Other(truthy)`
  (any other JSON value, with its JavaScript truthiness).
- A throwing database or library call is named in `faults: set<Step>`. Reaching
  that call gives 500.
- bcrypt's random salt is a `salt` argument. The database-assigned id is
  `newId`. The environment variable `JWT_SECRET` is `env: Option<string>`.

Where the three files disagree, the model shows it:

- Sign-in trims the identifier and password. Sign-up stores both as sent. An
  account created with whitespace around its password can never sign in, as
  long as its password and the password sent fit in bcrypt's 72-byte input and
  contain no NUL character (`Flows.PaddedPasswordLocksOut`). Past 72 bytes
  bcrypt compares only a prefix, and bcrypt ends its key at a NUL and repeats
  it to fill 72 bytes, so in either case a different password can still match.
- Sign-up compares email with email and username with username. Sign-in
  matches the identifier against either field. A newcomer may take an existing
  account's email as their username (`Flows.CrossFieldUsernameAdmitted`). Sign-in
  with that username then reaches the older account
  (`Flows.CrossFieldSigninShadowed`).
- After the blank check passes, sign-in's schema always accepts. The
  "Validation failed" branch of sign-in is unreachable
  (`SignIn.ValidationUnreachable`).

Other behaviour of the code worth knowing:

- Sign-in's schema step can never reject (`SignIn.ValidationUnreachable`).
- Sign-up treats any *falsy* field as missing, so `""`, `0` and `false` get
  400 "Missing required fields" (`SignUp.MissingFieldRejected`).
- The code signs and verifies with `"fallback-secret"` whenever `JWT_SECRET` is
  unset or empty, and so does `Oracles.Secret`.

## Model

| member | source | states |
|---|---|---|
| `JsText.TrimStart` | app/api/signin/route.ts:16-17 | the result is no longer than the input, does not start with whitespace, and ends where the input ends |
| `JsText.TrimEnd` | app/api/signin/route.ts:16-17 | the result is no longer than the input, does not end with whitespace, and starts where the input starts |
| `JsText.Trim` | app/api/signin/route.ts:16-17 | `trim()` neither starts nor ends with whitespace and is no longer than its input |
| `JsText.TrimStartDropsSpaces` | app/api/signin/route.ts:16-17 | what `TrimStart` removes is a prefix made only of whitespace, and it returns the rest unchanged |
| `JsText.TrimEndDropsSpaces` | app/api/signin/route.ts:16-17 | what `TrimEnd` removes is a suffix made only of whitespace, and it returns the rest unchanged |
| `JsText.TrimIsSlice` | app/api/signin/route.ts:16-17 | `trim()` returns a contiguous piece of the input, starting after the leading whitespace |
| `JsText.TrimEmptyIff` | app/api/signin/route.ts:19 | `trim()` is empty exactly when the input is all whitespace (when `!credential` holds for a string) |
| `JsText.TrimOfUnpadded` | app/api/signin/route.ts:16-17 | a string with no whitespace at either end is its own trim |
| `JsText.TrimIdempotent` | app/api/signin/route.ts:16-17 | trimming twice equals trimming once |
| `JsText.TrimFixedIff` | app/api/signin/route.ts:16-17 | `trim()` leaves a string unchanged exactly when it has no whitespace at either end |
| `JsText.Utf16Length` | app/api/signup/route.ts:6-11 | the length zod's `.min` checks lies between the character count and twice that count |
| `JsText.Utf16LengthOfBmp` | app/api/signup/route.ts:7 | for text without supplementary-plane characters, the zod length is the character count |
| `Accounts.StripForgetsOnlyPassword` | app/api/signin/route.ts:73 | two records look the same to the client exactly when they differ at most in `password`, so removing the digest removes nothing else |
| `Accounts.FindFirst` | app/api/signin/route.ts:39-43 | the result is the first record in store order whose email or username equals the key exactly, and None exactly when no record matches |
| `Accounts.AppendFreshKeepsUnique` | app/api/signup/route.ts:40-64 | appending a record whose email and username are both new keeps emails distinct and usernames distinct |
| `Oracles.Utf8Length` | app/api/signup/route.ts:54 | the UTF-8 byte length of a password lies between its character count and four times that count |
| `Oracles.Utf8LengthOfAscii` | app/api/signup/route.ts:54 | for text made only of ASCII characters, the UTF-8 byte length is the character count |
| `Oracles.Secret` | app/api/signin/route.ts:68 | the secret is `JWT_SECRET` when that is set and non-empty, otherwise `"fallback-secret"`; it is never empty |
| `Auth.VerifyToken` | lib/auth.ts:9-19 | the result is None exactly when `jwt.verify` fails under the configured or fallback secret, otherwise the decoded claims, with nothing raised to the caller; when the library round-trips, a token signed with the same secret yields exactly its claims |
| `Auth.IssuedTokenVerifies` | lib/auth.ts:13 | verification uses the secret expression sign-in signs with, so a token signed at sign-in verifies to its claims |
| `Auth.BearerToken` | lib/auth.ts:22-26 | a token is found exactly when the header is present and starts with `"Bearer "`, and then the header is `"Bearer "` followed by the token |
| `Auth.BearerRoundTrip` | lib/auth.ts:23-26 | parsing `"Bearer " + t` gives back exactly `t` |
| `Auth.PrefixIsExact` | lib/auth.ts:23 | a lower-case `"bearer "` prefix, or `"Bearer"` without the space, yields no token |
| `Auth.GetUserFromRequest` | lib/auth.ts:21-28 | with no header, or one without the exact prefix, the result is None; otherwise it is `verifyToken` of the header minus its first 7 characters, unchanged |
| `SignIn.OptionalTrim` | app/api/signin/route.ts:16-17 | `?.trim()` gives undefined for a nullish field, the trimmed string for a string, and throws for any other JSON value; the result is blank (`!credential` holds) exactly when the field is absent or a string made only of whitespace |
| `SignIn.SchemaIssues` | app/api/signin/route.ts:7-10 | `signinSchema` reports no issue exactly when both fields are non-empty |
| `SignIn.Signin` | app/api/signin/route.ts:12-86 | statuses are 200, 400, 401 or 500; every 400 is "Missing required fields", every 401 is "Invalid credentials", every 500 is "Internal server error"; a 200 signs in a record of the store |
| `SignIn.Authenticate` | app/api/signin/route.ts:38-78 | after validation: 200 exactly when the first matching record exists and its digest matches the password (no call throwing), and it then carries that record's claims and stripped record; 401 exactly when no record matches or the compare says no |
| `SignIn.WellFormedAuthenticates` | app/api/signin/route.ts:19-36 | a request whose trimmed fields are non-empty strings always passes the schema and goes to the lookup with those trimmed fields; any other request is answered 400 or 500 |
| `SignIn.BlankFieldRejected` | app/api/signin/route.ts:16-24 | when neither field is a non-string value, a request with an absent field or a field empty after trimming gets 400 "Missing required fields" whatever the store and faults, so no lookup happens |
| `SignIn.NonStringFieldFaults` | app/api/signin/route.ts:16-17 | a present non-string field makes `trim` throw, which gives 500 |
| `SignIn.ValidationUnreachable` | app/api/signin/route.ts:26-36 | once the blank check passes, the schema reports no issue and "Validation failed" is never returned |
| `SignIn.SigninOkIff` | app/api/signin/route.ts:45-78 | 200 exactly when a record matches and the trimmed password matches its digest; the body is then the "Signin successful" message with the record minus its digest and the token of `{userId, username, email}` signed with the secret |
| `SignIn.InvalidCredentialsIff` | app/api/signin/route.ts:45-63 | 401 exactly when the identifier is unknown or the password is wrong, with the identical body in both cases |
| `SignIn.OnlyTrimmedFieldsMatter` | app/api/signin/route.ts:16-29 | two requests whose fields trim alike get the same response: the untrimmed password is never compared |
| `SignIn.PaddedPasswordNeverMatches` | app/api/signin/route.ts:53-56 | assuming bcrypt has no collisions between NUL-free passwords within its 72-byte input, a digest of a password with surrounding whitespace never matches the trimmed password sign-in compares, when both are NUL-free and fit in 72 UTF-8 bytes |
| `SignUp.FieldIssues` | app/api/signup/route.ts:6-11 | one zod string field reports nothing when it is a string obeying its rule, one "invalid type" issue when it is not a string, and one issue with the rule's message when it is a string breaking the rule; it never reports more than one issue, and each issue carries the field's path |
| `SignUp.SchemaIssues` | app/api/signup/route.ts:6-11 | no issue exactly when username has at least 3, fullname at least 1 and password at least 6 UTF-16 units and the email passes the email check; a short username is cited first, and a short password or bad email is cited |
| `SignUp.Admit` | app/api/signup/route.ts:13-51 | rejections are 400, 409 or 500; every 409 is "User with this email or username already exists" and every 500 is "Internal server error"; an admitted request is the body as sent (untrimmed), obeys the schema, and its email and username both collide with no stored record |
| `SignUp.MissingFieldRejected` | app/api/signup/route.ts:18-23 | a falsy username, fullname, email or password gets 400 "Missing required fields" whatever the store and faults |
| `SignUp.InvalidRejected` | app/api/signup/route.ts:25-37 | a complete request that breaks the schema gets 400 "Validation failed" with a non-empty list of issues, whatever the store |
| `SignUp.ShortUsernameRejected` | app/api/signup/route.ts:7 | username `"ab"` is refused with a validation issue citing the minimum length of `username` |
| `SignUp.UnreadableBodyRejected` | app/api/signup/route.ts:13-16 | a body that cannot be read throws into the `catch`, which answers 500 "Internal server error" before any check |
| `SignUp.LookupFaultRejected` | app/api/signup/route.ts:40-44 | a complete, valid request whose duplicate lookup throws reaches the `catch` and gets 500 "Internal server error", whatever the store holds |
| `SignUp.DuplicateRejected` | app/api/signup/route.ts:40-51 | a valid request whose email or username is already stored gets 409 |
| `SignUp.AdmitIff` | app/api/signup/route.ts:16-51 | a request is admitted exactly when it is complete, valid, the lookup does not throw, and no record shares its email or its username |
| `SignUp.NewRecord` | app/api/signup/route.ts:54-64 | the created record carries the username, fullname and email as sent, and `hash(password, 12, salt)` in place of the password; that digest accepts the password as sent and, when that password is NUL-free and within bcrypt's 72-byte input, no other such password |
| `SignUp.UserTable.Create` | app/api/signup/route.ts:57-64 | `create` appends exactly the given record and leaves every existing record as it was |
| `SignUp.HandleSignup` | app/api/signup/route.ts:13-80 | a rejection leaves the table unchanged and answers with the guard's response; a throwing hash or create gives 500 with the table unchanged; a success appends exactly the new record, made of the body's username, fullname and email and the digest of the body's password, and answers 201 with it minus its digest; a table with distinct emails and distinct usernames stays so |
| `Flows.FindFirstAppended` | app/api/signin/route.ts:39-43 | after an append, a lookup that matches only the new record finds it |
| `Flows.SignupThenSignin` | app/api/signin/route.ts:39-78 | sign-up, then sign-in with the same username and password, then the Bearer header give 201, 200 and the new account's claims, provided no stored email equals the new username and neither field has surrounding whitespace |
| `Flows.PaddedPasswordLocksOut` | app/api/signup/route.ts:54-64 | an account admitted with whitespace around its password never gets a 200 from any sign-in that looks it up, when the stored and sent passwords are NUL-free and fit in bcrypt's 72-byte input |
| `Flows.CrossFieldUsernameAdmitted` | app/api/signup/route.ts:40-44 | a newcomer whose username is a stored account's email is admitted, and the store remains unique |
| `Flows.CrossFieldSigninShadowed` | app/api/signin/route.ts:39-43 | a sign-in whose identifier is an earlier account's email checks that account's digest, so a later account using that string as its username is refused unless the password matches the earlier one |

## Left out

- The HTTP layer (`NextRequest`, `NextResponse`, JSON encoding of responses) is
  left out. Responses are values of a datatype.
- `req.json()` parsing is modelled only by its outcome: a body, or a failure that
  gives 500.
- A JSON body that is a number, a string or an array destructures to absent
  fields. Callers pass it as a request with `Absent` fields.
- bcrypt is an abstract function and predicate, so the model leaves out
  salting, the cost factor's effect and constant-time comparison.
- bcrypt builds its key from the UTF-8 bytes of the password and a closing NUL,
  repeated to fill 72 bytes, and ignores anything past that. `HashVerifies`
  assumes no collisions only between NUL-free passwords of at most 72 UTF-8
  bytes, where distinct passwords give distinct keys, and says nothing about
  other passwords.
- SignIn.PaddedPasswordNeverMatches: holds only for NUL-free passwords of at
  most 72 UTF-8 bytes. Past 72 bytes bcrypt compares a prefix, so a padded
  password can match (71 `x` and a space, signed in with 71 `x`, a space and
  `y`). A NUL lets the repeated key of one password equal another's
  (`"abcde "`, signed in with `"abcde \u0000"` ten times followed by `"ab"`).
- Flows.PaddedPasswordLocksOut: holds only for NUL-free passwords of at most
  72 UTF-8 bytes, for the same reasons.
- SignUp.NewRecord: says the digest rejects other passwords only for NUL-free
  passwords of at most 72 UTF-8 bytes, for the same reasons.
- jsonwebtoken is an abstract `sign` and `verify`. HMAC, base64 encoding,
  `iat`/`exp` claims and the 7-day expiry are left out, because the model has no
  clock.
- `as AuthUser` performs no check at run time. The model's `verify` returns
  claims of the `AuthUser` shape.
- zod's email regular expression is an abstract `isEmail` predicate.
- zod's invalid-type issue is modelled without its "received <type>" wording
  and without the other issue fields (`code`, `minimum`).
- `findFirst` without `orderBy` has no order the database promises. The model
  takes store order.
- Email and username comparison is taken as exact. A case-insensitive database
  collation would behave differently.
- The table's column list and unique constraints are not part of the model.
  The record has the five fields the handlers use. A failing insert is the
  `CreateCall` fault.
- Ids are supplied by the database (`newId`). Their uniqueness is left to the
  database and not stated.
- The race between two concurrent sign-ups, both passing the duplicate check
  before either inserts, needs concurrency. The model is sequential.
- `console.error` logging is left out.
- `process.env` reading is modelled as the `env` parameter.
- `Headers.get` matches header names case-insensitively and joins repeated
  headers. The model takes the already-fetched header value.
- Dafny characters are Unicode scalar values. The model cannot represent a
  JavaScript string holding an unpaired surrogate.
- The React pages (`app/page.tsx`, `app/admin/characters/page.tsx`, the
  character and profile pages) are user interface and not part of this model.
