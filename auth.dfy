/** Token verification and Bearer-header parsing (lib/auth.ts). */
module Auth {
  import opened Wrappers
  import opened JsText
  import opened Oracles

  const BearerPrefix: string := "Bearer "

  /**
   * `verifyToken(token)`: the claims under the configured secret, or None (the
   * source's `null`) whenever `jwt.verify` throws; no failure reaches the caller.
   */
  function VerifyToken(o: Oracles, env: Option<string>, token: string): (r: Option<Claims>)
    ensures r.None? <==> o.verify(token, Secret(env)).None?
    ensures r.Some? ==> r == o.verify(token, Secret(env))
    ensures SignVerifies(o) ==> forall c :: token == o.sign(c, Secret(env)) ==> r == Some(c)
  {
    o.verify(token, Secret(env))
  }

  /** A token signed at sign-in (same secret expression) verifies to the claims it was signed with. */
  lemma IssuedTokenVerifies(o: Oracles, env: Option<string>, c: Claims)
    requires SignVerifies(o)
    ensures VerifyToken(o, env, o.sign(c, Secret(env))) == Some(c)
  {
  }

  /**
   * The token a header carries: present exactly when the header is present,
   * non-empty and starts with "Bearer " (case-sensitive, trailing space
   * included), and then it is the header minus that prefix.
   */
  function BearerToken(header: Option<string>): (r: Option<string>)
    ensures r.Some? <==> header.Some? && StartsWith(header.value, BearerPrefix)
    ensures r.Some? ==> header.value == BearerPrefix + r.value
  {
    if header.None? || header.value == "" || !StartsWith(header.value, BearerPrefix) then None
    else
      assert header.value == header.value[..7] + header.value[7..];
      Some(header.value[7..])
  }

  /** Building a header from a token and parsing it gives the token back. */
  lemma BearerRoundTrip(token: string)
    ensures BearerToken(Some(BearerPrefix + token)) == Some(token)
  {
    assert (BearerPrefix + token)[..7] == BearerPrefix;
    assert (BearerPrefix + token)[7..] == token;
  }

  /** The prefix test is case-sensitive and needs the space: these headers carry no token. */
  lemma PrefixIsExact(token: string)
    ensures BearerToken(Some("bearer " + token)) == None
    ensures BearerToken(Some("Bearer")) == None
  {
    var h := "bearer " + token;
    if |h| >= 7 {
      assert h[..7][0] == 'b';
    }
  }

  /**
   * `getUserFromRequest(request)` given the request's `authorization` header:
   * None without a well-formed Bearer header, otherwise exactly what
   * `verifyToken` returns for the part after the prefix.
   */
  function GetUserFromRequest(o: Oracles, env: Option<string>, header: Option<string>): (r: Option<Claims>)
    ensures header.None? ==> r.None?
    ensures header.Some? && !StartsWith(header.value, BearerPrefix) ==> r.None?
    ensures header.Some? && StartsWith(header.value, BearerPrefix)
      ==> r == VerifyToken(o, env, header.value[|BearerPrefix|..])
  {
    match BearerToken(header)
    case None => None
    case Some(token) => VerifyToken(o, env, token)
  }
}
