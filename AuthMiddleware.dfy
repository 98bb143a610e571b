/**
 * `authMiddleware`: find the session token (cookie first, then a "Bearer " authorization header),
 * check it, read the account id and provider from its payload, and resolve the account into the
 * identity attached to the request as `req.auth`.
 */
module AuthMiddleware {
  import opened Wrappers
  import opened Collections
  import opened JsStrings
  import opened Models
  import opened Tokens
  import opened Stores
  import opened Http
  import PasswordLogin
  import GoogleIdentity

  /** `req.cookies.token`, `req.headers.authorization` and `req.headers.Authorization`. */
  datatype Credentials = Credentials(cookie: Option<string>, authorization: Option<string>, authorizationCap: Option<string>)

  const BearerPrefix := "Bearer "

  const MsgNotAuthenticated := "Not authenticated"
  const MsgBadToken := "Invalid or expired token"
  const MsgBadPayload := "Invalid token payload"
  const MsgNoAccount := "Invalid token user"

  /** `authHeader.split(" ")[1]` for a header that starts with "Bearer ". */
  function BearerPiece(h: string): (t: string)
    requires StartsWith(h, BearerPrefix)
    ensures ' ' !in t
  {
    assert h[..6] == "Bearer";
    SplitHead(h, ' ', 6);
    var parts := Split(h, ' ');
    assert parts[1] in parts;
    parts[1]
  }

  /** `req.headers.authorization || req.headers.Authorization`. */
  function AuthHeader(c: Credentials): Option<string>
  {
    if Truthy(c.authorization) then c.authorization else c.authorizationCap
  }

  /** The token a request presents, `None` when it presents none (or an empty one). */
  function RequestToken(c: Credentials): (r: Option<string>)
    ensures r.Some? ==> r.value != ""
  {
    if Truthy(c.cookie) then c.cookie
    else
      var h := AuthHeader(c);
      if Truthy(h) && StartsWith(h.value, BearerPrefix) && BearerPiece(h.value) != "" then Some(BearerPiece(h.value))
      else None
  }

  /** The token lookup as the handler writes it, a local `token` reassigned step by step. */
  method ExtractToken(c: Credentials) returns (token: Option<string>)
    ensures token == RequestToken(c)
  {
    token := None;
    if Truthy(c.cookie) {
      token := c.cookie;
    }
    var authHeader := AuthHeader(c);
    if !Truthy(token) && Truthy(authHeader) && StartsWith(authHeader.value, BearerPrefix) {
      token := Some(BearerPiece(authHeader.value));
    }
    if !Truthy(token) {
      token := None;
    }
  }

  /**
   * `payload.userId || payload.userID || payload.id`: an id is claimed exactly when the payload
   * carries one under any of the three names, and it is one of them, `userId` first.
   */
  function ClaimedId(claims: Claims): (r: Option<Id>)
    ensures r.None? <==> claims.userId.None? && claims.userID.None? && claims.id.None?
    ensures r.Some? ==> r == claims.userId || r == claims.userID || r == claims.id
    ensures claims.userId.Some? ==> r == claims.userId
    ensures claims.userId.None? && claims.userID.Some? ==> r == claims.userID
    ensures claims.userId.None? && claims.userID.None? ==> r == claims.id
  {
    if claims.userId.Some? then claims.userId
    else if claims.userID.Some? then claims.userID
    else claims.id
  }

  /** `payload.provider || "local"`. */
  function ClaimedProvider(claims: Claims): string
  {
    OrElse(claims.provider, "local")
  }

  /** `req.auth` for a Google account. */
  function GoogleAuth(g: GoogleUser): Auth
  {
    Auth(g.id, g.username, g.email, Some(g.avatar), "google")
  }

  /** `req.auth` for a local account; the schema declares no `provider`, so it is always "local". */
  function LocalAuth(u: LocalUser): Auth
  {
    Auth(u.id, Some(u.username), u.email, None, "local")
  }

  /** Steps 3 and 4: from a verified payload to the identity, or a 401. */
  function Resolve(s: Stores, claims: Claims): Reply
  {
    match ClaimedId(claims)
    case None => Unauthorized(MsgBadPayload)
    case Some(id) =>
      if ClaimedProvider(claims) == "google" then
        match FindGoogle(s.googleUsers, id)
        case None => Unauthorized(MsgNoAccount)
        case Some(k) => Identity(GoogleAuth(s.googleUsers[k]))
      else
        match FindUser(s.users, id)
        case None => Unauthorized(MsgNoAccount)
        case Some(k) => Identity(LocalAuth(s.users[k]))
  }

  /**
   * The middleware. `verify` stands for `jwt.verify` with the server's secret and clock: the
   * payload of a token that is genuine and unexpired, `None` otherwise.
   */
  function Authenticate(s: Stores, c: Credentials, verify: string -> Option<Claims>): Reply
  {
    match RequestToken(c)
    case None => Unauthorized(MsgNotAuthenticated)
    case Some(token) =>
      match verify(token)
      case None => Unauthorized(MsgBadToken)
      case Some(claims) => Resolve(s, claims)
  }

  // ---- where the token comes from ----

  /** A cookie token wins whatever the headers say. */
  lemma CookieBeforeHeader(c: Credentials, a: Option<string>, b: Option<string>)
    requires Truthy(c.cookie)
    ensures RequestToken(c.(authorization := a, authorizationCap := b)) == c.cookie
  {
  }

  /** Without a cookie, "Bearer t" in the header yields exactly t, for any t without spaces. */
  lemma BearerRoundTrip(c: Credentials, t: string)
    requires !Truthy(c.cookie) && c.authorization == Some(BearerPrefix + t)
    requires t != "" && ' ' !in t
    ensures RequestToken(c) == Some(t)
  {
    var h := BearerPrefix + t;
    assert h[..6] == "Bearer" && h[7..] == t;
    SplitOnce(h, ' ', 6);
  }

  /**
   * The header token is the second space-separated word, whatever follows it: "Bearer t rest"
   * yields t, and so does "Bearer t".
   */
  lemma BearerPieceIsSecondWord(t: string, rest: string)
    requires ' ' !in t
    ensures StartsWith(BearerPrefix + t + " " + rest, BearerPrefix) && BearerPiece(BearerPrefix + t + " " + rest) == t
    ensures StartsWith(BearerPrefix + t, BearerPrefix) && BearerPiece(BearerPrefix + t) == t
  {
    var h := BearerPrefix + t + " " + rest;
    assert h == "Bearer" + [' '] + (t + [' '] + rest);
    assert h[..|BearerPrefix|] == BearerPrefix;
    SplitCons("Bearer", ' ', t + [' '] + rest);
    SplitCons(t, ' ', rest);
    var h2 := BearerPrefix + t;
    assert h2 == "Bearer" + [' '] + t;
    assert h2[..|BearerPrefix|] == BearerPrefix;
    SplitCons("Bearer", ' ', t);
    SplitHead(t, ' ', |t|);
  }

  /** Without a cookie, a header that does not start with "Bearer " presents no token. */
  lemma OtherSchemesIgnored(c: Credentials)
    requires !Truthy(c.cookie) && Truthy(AuthHeader(c)) && !StartsWith(AuthHeader(c).value, BearerPrefix)
    ensures RequestToken(c) == None
    ensures forall s: Stores, verify: string -> Option<Claims> :: Authenticate(s, c, verify) == Unauthorized(MsgNotAuthenticated)
  {
  }

  // ---- what a payload resolves to ----

  /** A payload without any id is refused before any lookup, whatever the store holds. */
  lemma NoIdRefused(s: Stores, claims: Claims)
    requires claims.userId.None? && claims.userID.None? && claims.id.None?
    ensures Resolve(s, claims) == Unauthorized(MsgBadPayload)
  {
  }

  /** A token whose account is gone (deleted, or never in the store it names) is refused. */
  lemma DeletedAccountRefused(s: Stores, claims: Claims)
    requires ClaimedId(claims).Some?
    requires ClaimedProvider(claims) == "google" ==> forall g <- s.googleUsers :: g.id != ClaimedId(claims).value
    requires ClaimedProvider(claims) != "google" ==> forall u <- s.users :: u.id != ClaimedId(claims).value
    ensures Resolve(s, claims) == Unauthorized(MsgNoAccount)
  {
  }

  /**
   * Only the exact provider "google" selects the Google accounts; any other value, or none,
   * resolves against the local accounts.
   */
  lemma ProviderDispatch(s: Stores, claims: Claims)
    requires ClaimedId(claims).Some?
    ensures ClaimedProvider(claims) != "google" ==> Resolve(s, claims) == Resolve(s.(googleUsers := []), claims)
    ensures ClaimedProvider(claims) == "google" ==> Resolve(s, claims) == Resolve(s.(users := []), claims)
  {
  }

  /** The token of a password login resolves to that local account. */
  lemma LoginTokenResolves(s: Stores, k: nat)
    requires Valid(s) && k < |s.users|
    ensures Resolve(s, PasswordLogin.LoginToken(s.users[k].id).claims) == Identity(LocalAuth(s.users[k]))
  {
    assert FindUser(s.users, s.users[k].id) == Some(k);
  }

  /** The token of a Google login resolves to that Google account. */
  lemma GoogleTokenResolves(s: Stores, k: nat)
    requires Valid(s) && k < |s.googleUsers|
    ensures Resolve(s, GoogleIdentity.SessionToken(s.googleUsers[k]).claims) == Identity(GoogleAuth(s.googleUsers[k]))
  {
    assert FindGoogle(s.googleUsers, s.googleUsers[k].id) == Some(k);
  }

  /**
   * End to end: a password login followed by a request that presents the issued token (and that
   * `verify` accepts) is authenticated as the account that logged in, with provider "local".
   */
  lemma LoginThenAuthenticate(s: Stores, req: PasswordLogin.LoginRequest, c: Credentials, verify: string -> Option<Claims>)
    requires Valid(s) && PasswordLogin.Login(s, req).LoggedIn?
    requires RequestToken(c).Some? && verify(RequestToken(c).value) == Some(PasswordLogin.Login(s, req).token.claims)
    ensures var user := PasswordLogin.Login(s, req).user;
      Authenticate(s, c, verify) == Identity(Auth(user.id, Some(user.username), user.email, None, "local"))
  {
    var t := Trim(req.identifier.value);
    var k := PasswordLogin.AccountFor(s.users, t).value;
    LoginTokenResolves(s, k);
  }
}
