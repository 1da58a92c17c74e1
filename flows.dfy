/**
 * What the three files do together: an account created at sign-up signs in and
 * its token authenticates later requests, and the places where the two
 * handlers disagree about whitespace and about which field an identifier names.
 */
module Flows {
  import opened Wrappers
  import opened JsText
  import opened Accounts
  import opened Oracles
  import opened Http
  import opened Auth
  import opened SignIn
  import opened SignUp

  /** In `users + [u]`, a lookup that matches `u` and nothing earlier finds `u`. */
  lemma FindFirstAppended(users: seq<User>, u: User, email: string, username: string)
    requires MatchesEither(u, email, username)
    requires forall v :: v in users ==> !MatchesEither(v, email, username)
    ensures FindFirst(users + [u], email, username) == Some(|users|)
  {
    var s := users + [u];
    var r := FindFirst(s, email, username);
    assert s[|users|] == u;
  }

  /**
   * Sign up, sign in with the same username and password, and present the token:
   * 201, then 200, then the claims of the new account. It holds when the fields
   * have no surrounding whitespace and no stored record has the new username
   * as its email (sign-up does not look for that collision, sign-in does).
   */
  method SignupThenSignin(users: seq<User>, o: Oracles, env: Option<string>, salt: string, newId: string,
                          username: string, fullname: string, email: string, password: string)
    returns (signup: Response, signin: Response, caller: Option<Claims>)
    requires HashVerifies(o) && SignVerifies(o)
    requires Conforms(SignupRequest(Str(username), Str(fullname), Str(email), Str(password)), o.isEmail)
    requires forall u :: u in users ==> u.email != email && u.username != username && u.email != username
    requires email != ""
    requires Trim(username) == username && Trim(password) == password
    ensures signup == Response(201, SignupPayload("User created successfully",
                                                  PublicUser(newId, username, fullname, email)))
    ensures signin.status == 200 && signin.payload.SigninPayload?
    ensures signin.payload.user == PublicUser(newId, username, fullname, email)
    ensures caller == Some(Claims(newId, username, email))
  {
    var table := new UserTable(users);
    var up := Some(SignupRequest(Str(username), Str(fullname), Str(email), Str(password)));
    var d := Admit(up, users, o.isEmail, {});
    AdmitIff(up, users, o.isEmail, {});
    assert d.Accept?;
    signup := HandleSignup(table, up, o, salt, newId, {});
    var u := NewRecord(d, o, salt, newId);
    assert table.users == users + [u];

    var inReq := Some(SigninRequest(Str(username), Str(password)));
    assert WellFormed(inReq);
    FindFirstAppended(users, u, username, username);
    assert LookUp(inReq, table.users) == Some(|users|);
    signin := Signin(inReq, table.users, o, env, {});
    SigninOkIff(inReq, table.users, o, env, {});

    var token := o.sign(Claims(newId, username, email), Secret(env));
    assert signin.payload.token == token;
    BearerRoundTrip(token);
    caller := GetUserFromRequest(o, env, Some(BearerPrefix + signin.payload.token));
    IssuedTokenVerifies(o, env, Claims(newId, username, email));
  }

  /**
   * An account created with whitespace around its password is admitted, yet no
   * sign-in that looks it up succeeds, whatever password is sent: sign-up
   * hashes the password as sent, sign-in compares the trimmed one. This holds
   * for NUL-free passwords within bcrypt's 72-byte input on both sides.
   */
  lemma PaddedPasswordLocksOut(users: seq<User>, o: Oracles, env: Option<string>, salt: string,
                               newId: string, d: Decision, body: Option<SigninRequest>, faults: set<Step>)
    requires HashVerifies(o)
    requires d.Accept? && Trim(d.password) != d.password
    requires WellFormed(body)
    requires Utf8Length(d.password) <= BcryptMaxBytes
    requires Utf8Length(Trim(body.value.password.s)) <= BcryptMaxBytes
    requires '\0' !in d.password && '\0' !in Trim(body.value.password.s)
    requires LookUp(body, users + [NewRecord(d, o, salt, newId)]) == Some(|users|)
    ensures Signin(body, users + [NewRecord(d, o, salt, newId)], o, env, faults).status != 200
  {
    var s := users + [NewRecord(d, o, salt, newId)];
    SigninOkIff(body, s, o, env, faults);
    PaddedPasswordNeverMatches(o, d.password, BcryptRounds, salt, body.value.password.s);
  }

  /**
   * Sign-up keeps emails apart from emails and usernames apart from usernames:
   * a newcomer may take a stored account's email as their username, and the
   * store is still unique afterwards.
   */
  lemma CrossFieldUsernameAdmitted(carol: User, req: SignupRequest, o: Oracles, salt: string, newId: string)
    requires !AnyFalsy(req) && Conforms(req, o.isEmail)
    requires req.username == Str(carol.email) && carol.username != carol.email
    requires req.email.s != carol.email
    ensures var d := Admit(Some(req), [carol], o.isEmail, {});
      d.Accept? && Unique([carol, NewRecord(d, o, salt, newId)])
  {
    AdmitIff(Some(req), [carol], o.isEmail, {});
    var d := Admit(Some(req), [carol], o.isEmail, {});
    AppendFreshKeepsUnique([carol], NewRecord(d, o, salt, newId));
    assert [carol] + [NewRecord(d, o, salt, newId)] == [carol, NewRecord(d, o, salt, newId)];
  }

  /**
   * Sign-in matches the identifier against either field, so a username equal to
   * an earlier account's email reaches that earlier account: its digest is the
   * one compared, and the later account's own password is refused.
   */
  lemma CrossFieldSigninShadowed(carol: User, rest: seq<User>, o: Oracles, env: Option<string>,
                                 username: string, sent: string, faults: set<Step>)
    requires carol.email == username && Trim(username) == username && username != ""
    requires Trim(sent) != ""
    ensures var r := Signin(Some(SigninRequest(Str(username), Str(sent))), [carol] + rest, o, env, faults);
      && (r.status == 200 ==> r == SignedIn(o, env, carol))
      && (!o.matches(Trim(sent), carol.password) ==> r.status != 200)
  {
    var users := [carol] + rest;
    var body := Some(SigninRequest(Str(username), Str(sent)));
    assert WellFormed(body);
    assert users[0] == carol;
    assert LookUp(body, users) == Some(0);
    SigninOkIff(body, users, o, env, faults);
  }
}
