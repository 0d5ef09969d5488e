/** The two HTTP middlewares of `auth.go`: bearer-token authentication and
    role-based authorisation. Signature and expiry checking of the JWT is
    an oracle `verify` from the token text to its claims. */
module Auth {
  import opened Base
  import opened Text

  const MethodOptions := "OPTIONS"
  const BearerScheme := "Bearer"

  const Unauthorized := 401
  const Forbidden := 403

  const MissingHeader := "missing Authorization header"
  const BadHeaderFormat := "invalid Authorization header format"
  const EmptyToken := "empty token"
  const BadToken := "invalid or expired token"
  const BadPayload := "invalid token payload"
  const AccessDenied := "access denied"

  /** The request context values the middlewares read and write. */
  datatype Context = Context(userId: Option<string>, role: Option<string>)

  datatype Request = Request(httpMethod: string, authorization: string, ctx: Context)

  /** The part of a verified token's payload the middleware uses. */
  datatype Claims = Claims(userId: string, role: string)

  /** Either the next handler runs with this request, or the middleware
      answers with a JSON error body under this status code. */
  datatype Decision = Forward(req: Request) | Deny(code: int, message: string)

  /** The token of an `Authorization` header of the form
      `<scheme> <token>` whose scheme is "Bearer" in any letter case;
      surrounding white space of the token is dropped. */
  function BearerToken(header: string): (t: Option<string>)
    ensures t.Some? <==> exists k :: 0 <= k < |header| && header[k] == ' ' && ' ' !in header[..k] &&
                                      EqualFold(header[..k], BearerScheme)
    ensures t.Some? ==> exists k :: 0 <= k < |header| && header[k] == ' ' && ' ' !in header[..k] &&
                                    t.value == TrimSpace(header[k + 1..])
  {
    var parts := SplitFirstSpace(header);
    if |parts| != 2 || !EqualFold(parts[0], BearerScheme) then None
    else
      var k := |parts[0]|;
      assert header[..k] == parts[0] && header[k] == ' ' && header[k + 1..] == parts[1];
      Some(TrimSpace(parts[1]))
  }

  /** `AuthMiddleware`: preflight requests pass untouched; otherwise the
      header must be present, of the bearer form, carry a non-blank token
      that verifies, and name a user. The forwarded request carries the
      user id, and the role only when the token names one. */
  function Authenticate(req: Request, verify: string -> Option<Claims>): (d: Decision)
    ensures req.httpMethod == MethodOptions ==> d == Forward(req)
    ensures req.httpMethod != MethodOptions && req.authorization == "" ==> d == Deny(Unauthorized, MissingHeader)
    ensures req.httpMethod != MethodOptions && req.authorization != "" && BearerToken(req.authorization).None? ==>
      d == Deny(Unauthorized, BadHeaderFormat)
    ensures req.httpMethod != MethodOptions && BearerToken(req.authorization) == Some("") ==>
      d == Deny(Unauthorized, EmptyToken)
    ensures (req.httpMethod != MethodOptions && BearerToken(req.authorization).Some?
      && BearerToken(req.authorization).value != "" && verify(BearerToken(req.authorization).value).None?) ==>
      d == Deny(Unauthorized, BadToken)
    ensures (req.httpMethod != MethodOptions && BearerToken(req.authorization).Some?
      && BearerToken(req.authorization).value != "" && verify(BearerToken(req.authorization).value).Some?
      && verify(BearerToken(req.authorization).value).value.userId == "") ==>
      d == Deny(Unauthorized, BadPayload)
    ensures d.Deny? ==> d.code == Unauthorized
    ensures d.Forward? <==> (req.httpMethod == MethodOptions ||
      (BearerToken(req.authorization).Some? && BearerToken(req.authorization).value != ""
       && verify(BearerToken(req.authorization).value).Some?
       && verify(BearerToken(req.authorization).value).value.userId != ""))
    ensures d.Forward? && req.httpMethod != MethodOptions ==>
      var c := verify(BearerToken(req.authorization).value).value;
      && d.req.httpMethod == req.httpMethod && d.req.authorization == req.authorization
      && d.req.ctx.userId == Some(c.userId)
      && d.req.ctx.role == (if c.role != "" then Some(c.role) else req.ctx.role)
  {
    if req.httpMethod == MethodOptions then Forward(req)
    else if req.authorization == "" then Deny(Unauthorized, MissingHeader)
    else
      var token := BearerToken(req.authorization);
      if token.None? then Deny(Unauthorized, BadHeaderFormat)
      else if token.value == "" then Deny(Unauthorized, EmptyToken)
      else
        var claims := verify(token.value);
        if claims.None? then Deny(Unauthorized, BadToken)
        else if claims.value.userId == "" then Deny(Unauthorized, BadPayload)
        else
          var role := if claims.value.role != "" then Some(claims.value.role) else req.ctx.role;
          Forward(req.(ctx := Context(Some(claims.value.userId), role)))
  }

  /** `RoleMiddleware`: preflight requests pass; otherwise the request must
      carry a non-empty role that is one of the allowed ones. */
  function Authorize(req: Request, allowed: seq<string>): (d: Decision)
    ensures d == Forward(req) || d == Deny(Forbidden, AccessDenied)
    ensures d.Forward? <==> (req.httpMethod == MethodOptions ||
      (req.ctx.role.Some? && req.ctx.role.value != "" && req.ctx.role.value in allowed))
  {
    if req.httpMethod == MethodOptions then Forward(req)
    else if req.ctx.role.None? || req.ctx.role.value == "" then Deny(Forbidden, AccessDenied)
    else if req.ctx.role.value in allowed then Forward(req)
    else Deny(Forbidden, AccessDenied)
  }

  /** A header built from the scheme in any case, a space and a token with
      no white space around it yields that token back; spaces inside the
      token stay, because only the first space splits the header. */
  lemma BearerTokenOfHeader(scheme: string, token: string)
    requires EqualFold(scheme, BearerScheme) && TrimSpace(token) == token
    ensures BearerToken(scheme + " " + token) == Some(token)
  {
    var header := scheme + " " + token;
    assert ' ' !in scheme by {
      forall i | 0 <= i < |scheme| ensures scheme[i] != ' ' {
        assert Lower(scheme[i]) == Lower(BearerScheme[i]);
      }
    }
    SplitAfterWord(scheme, token);
  }

  /** The two middlewares in the order the routes stack them: a fresh
      request with a verified token reaches the handler exactly when the
      token names a user and one of the allowed roles. */
  lemma AuthenticatedRoles(req: Request, verify: string -> Option<Claims>, allowed: seq<string>)
    requires req.httpMethod != MethodOptions && req.ctx.role == None
    ensures var d := Authenticate(req, verify);
      (d.Forward? && Authorize(d.req, allowed).Forward?) <==>
      && BearerToken(req.authorization).Some? && BearerToken(req.authorization).value != ""
      && verify(BearerToken(req.authorization).value).Some?
      && var c := verify(BearerToken(req.authorization).value).value;
      && c.userId != "" && c.role != "" && c.role in allowed
  {
  }

  /** A request carrying `Bearer <token>` for a token whose claims name a
      user and an allowed role gets through both middlewares, whatever
      the case of the scheme. */
  lemma ValidBearerGetsThrough(scheme: string, token: string, verify: string -> Option<Claims>,
                               allowed: seq<string>, httpMethod: string)
    requires EqualFold(scheme, BearerScheme) && TrimSpace(token) == token && token != ""
    requires verify(token).Some? && verify(token).value.userId != ""
    requires verify(token).value.role in allowed && verify(token).value.role != ""
    requires httpMethod != MethodOptions
    ensures var d := Authenticate(Request(httpMethod, scheme + " " + token, Context(None, None)), verify);
      d.Forward? && d.req.ctx == Context(Some(verify(token).value.userId), Some(verify(token).value.role))
      && Authorize(d.req, allowed) == Forward(d.req)
  {
    var req := Request(httpMethod, scheme + " " + token, Context(None, None));
    BearerTokenOfHeader(scheme, token);
    var c := verify(token).value;
    assert req.authorization != "";
    assert Authenticate(req, verify) == Forward(req.(ctx := Context(Some(c.userId), Some(c.role))));
  }
}
