/** The authentication middleware as a decision on one request: the
    `Authorization` header, the token blacklist in the cache, the token
    checker (signature and expiry, left abstract) and the users table; and
    the admin gate that follows it on admin routes. */
module Auth {
  import opened Results
  import opened Strings
  import opened Tables
  import opened Models
  import opened Store

  const BlacklistPrefix := "blacklist:"

  /** The cache key whose presence revokes `token`. */
  function BlacklistKey(token: string): string {
    BlacklistPrefix + token
  }

  /** What parsing and validating a JWT yields: a parse or signature or
      expiry error, a token the library reports as not valid, or the claims
      with the user id. */
  datatype TokenCheck = ParseError | NotValid | Claims(userId: Id)

  /** The values the middleware stores on the gin context. */
  datatype GinKeys = GinKeys(userId: Option<Id>, role: Option<Role>, token: Option<string>)

  /** A `context.Context` handed to a service: a gin request context, or
      some other context that carries none of the middleware's keys. */
  datatype RequestContext = NonGin | Gin(keys: GinKeys)

  /** Abort with an HTTP status and error message, or continue down the
      chain with the context keys set. */
  datatype Decision = Reject(status: int, message: string) | Proceed(keys: GinKeys)

  /** The token of a header that splits on single spaces into exactly
      `Bearer` and one more part. */
  function BearerToken(header: string): Option<string> {
    var parts := Split(header, ' ');
    if |parts| != 2 || parts[0] != "Bearer" then None else Some(parts[1])
  }

  /** A header is accepted exactly when it is "Bearer ", then a token with
      no space in it (possibly empty). */
  lemma BearerTokenIff(header: string, token: string)
    ensures BearerToken(header) == Some(token) <==> header == "Bearer " + token && ' ' !in token
  {
    if header == "Bearer " + token && ' ' !in token {
      assert header == "Bearer" + [' '] + token;
      SplitAtFirst("Bearer", token, ' ');
      SplitNoSeparator(token, ' ');
    }
    if BearerToken(header) == Some(token) {
      var parts := Split(header, ' ');
      JoinSplit(header, ' ');
      assert parts[1..] == [token];
      assert Join(parts, ' ') == "Bearer" + [' '] + token;
    }
  }

  /** The format check is case-sensitive. */
  lemma LowercaseSchemeRejected()
    ensures BearerToken("bearer x") == None
  {
    forall t ensures "bearer x" != "Bearer " + t {
      assert ("Bearer " + t)[0] == 'B' != "bearer x"[0];
    }
    BearerTokenNone("bearer x");
  }

  /** A header with the scheme alone is rejected. */
  lemma MissingTokenRejected()
    ensures BearerToken("Bearer") == None
  {
    forall t ensures "Bearer" != "Bearer " + t {
      assert |"Bearer " + t| == 7 + |t|;
    }
    BearerTokenNone("Bearer");
  }

  /** A doubled space makes three parts, which is rejected. */
  lemma DoubleSpaceRejected()
    ensures BearerToken("Bearer  x") == None
  {
    forall t | "Bearer  x" == "Bearer " + t ensures ' ' in t {
      assert t[0] == "Bearer  x"[7];
    }
    BearerTokenNone("Bearer  x");
  }

  lemma BearerTokenNone(header: string)
    requires forall t :: header == "Bearer " + t ==> ' ' in t
    ensures BearerToken(header) == None
  {
    if BearerToken(header).Some? {
      BearerTokenIff(header, BearerToken(header).value);
    }
  }

  /** `AuthMiddleware` on one request. `cacheUp` is false when the cache
      lookup fails, which counts as "not blacklisted". Every rejection is
      401. */
  function Authenticate(
    header: string,
    cache: map<string, CacheValue>,
    cacheUp: bool,
    parse: string -> TokenCheck,
    users: Table<User>): (d: Decision)
    ensures d.Reject? ==> d.status == 401
    ensures header == "" ==> d == Reject(401, "Authorization header is required")
    ensures header != "" && BearerToken(header).None? ==>
      d == Reject(401, "Invalid authorization header format")
    ensures BearerToken(header).Some? && cacheUp && BlacklistKey(BearerToken(header).value) in cache ==>
      d == Reject(401, "Token has been invalidated")
    ensures d.Proceed? <==>
      && header != ""
      && BearerToken(header).Some?
      && !(cacheUp && BlacklistKey(BearerToken(header).value) in cache)
      && parse(BearerToken(header).value).Claims?
      && parse(BearerToken(header).value).userId in users.byId
    ensures d.Proceed? ==>
      var token := BearerToken(header).value;
      var uid := parse(token).userId;
      d.keys == GinKeys(Some(uid), Some(users.byId[uid].role), Some(token))
  {
    if header == "" then Reject(401, "Authorization header is required")
    else match BearerToken(header)
      case None => Reject(401, "Invalid authorization header format")
      case Some(token) =>
        if cacheUp && BlacklistKey(token) in cache then Reject(401, "Token has been invalidated")
        else match parse(token)
          case ParseError => Reject(401, "Invalid or expired token")
          case NotValid => Reject(401, "Invalid token")
          case Claims(uid) =>
            match users.Get(uid)
            case None => Reject(401, "User not found")
            case Some(user) => Proceed(GinKeys(Some(uid), Some(user.role), Some(token)))
  }

  /** `AdminMiddleware`: no role on the context is 401, a role other than
      admin is 403, admin continues. */
  function AdminGate(keys: GinKeys): (d: Decision)
    ensures keys.role.None? ==> d == Reject(401, "User role not found")
    ensures keys.role.Some? && keys.role.value != RoleAdmin ==> d == Reject(403, "Admin access required")
    ensures d.Proceed? <==> keys.role == Some(RoleAdmin)
    ensures d.Proceed? ==> d.keys == keys
  {
    match keys.role
    case None => Reject(401, "User role not found")
    case Some(role) => if role != RoleAdmin then Reject(403, "Admin access required") else Proceed(keys)
  }

  /** Behind the authentication middleware, the admin gate lets a request
      through exactly when the stored user behind its token is an admin. */
  lemma AdminRouteNeedsStoredAdmin(
    header: string, cache: map<string, CacheValue>, cacheUp: bool,
    parse: string -> TokenCheck, users: Table<User>)
    requires Authenticate(header, cache, cacheUp, parse, users).Proceed?
    ensures var keys := Authenticate(header, cache, cacheUp, parse, users).keys;
            AdminGate(keys).Proceed? <==> users.byId[keys.userId.value].IsAdmin()
  {
  }

  /** `GetTokenFromContext`: the token the middleware stored, or "" for a
      context that is not a gin context or has no token. */
  function GetTokenFromContext(ctx: RequestContext): (token: string)
    ensures ctx.NonGin? ==> token == ""
    ensures ctx.Gin? && ctx.keys.token.None? ==> token == ""
    ensures ctx.Gin? && ctx.keys.token.Some? ==> token == ctx.keys.token.value
  {
    match ctx
    case NonGin => ""
    case Gin(keys) => if keys.token.Some? then keys.token.value else ""
  }

  /** A request that passed the middleware hands its raw bearer token on to
      the services. */
  lemma ContextCarriesRawToken(
    header: string, cache: map<string, CacheValue>, cacheUp: bool,
    parse: string -> TokenCheck, users: Table<User>)
    requires Authenticate(header, cache, cacheUp, parse, users).Proceed?
    ensures var keys := Authenticate(header, cache, cacheUp, parse, users).keys;
            header == "Bearer " + GetTokenFromContext(Gin(keys))
  {
    var token := BearerToken(header).value;
    BearerTokenIff(header, token);
  }
}
