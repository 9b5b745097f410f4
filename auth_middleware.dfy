/** The backend's authentication middleware: which paths skip the token check,
    which CORS headers an error response carries (the origin is echoed only when
    it is allowed, as section 3.2.3 of the WHATWG Fetch Standard expects of
    Access-Control-Allow-Origin with credentials), and the decision tree that
    either forwards the request with the user id or answers with an error. */
module AuthMiddleware {
  import opened Wrappers
  import opened Text
  import opened AuthService
  import Config

  const DefaultExcludedPaths: seq<string> := [
    "/", "/auth/login", "/auth/register", "/auth/refresh",
    "/openapi.json", "/docs", "/redoc", "/docs/oauth2-redirect", "/health"
  ]

  /** ALLOWED_ORIGINS: the set of the configured CORS origins. */
  function AllowedOrigins(s: Config.Settings): (r: set<string>)
    ensures "" !in r
    ensures forall o :: o in r ==> ',' !in o
  {
    set o | o in Config.CorsOriginsList(s)
  }

  /** The list `is_excluded_path` uses: the given one unless it is missing or empty. */
  function EffectiveExcluded(excluded: Option<seq<string>>): (r: seq<string>)
    ensures excluded.None? || excluded.value == [] ==> r == DefaultExcludedPaths
    ensures excluded.Some? && excluded.value != [] ==> r == excluded.value
  {
    if excluded.Some? && excluded.value != [] then excluded.value else DefaultExcludedPaths
  }

  /** `path` is the entry itself or lies below it. */
  predicate Covers(p: string, path: string) {
    path == p || StartsWith(path, p + "/")
  }

  function AnyCovers(list: seq<string>, path: string): (r: bool)
    ensures r <==> exists i :: 0 <= i < |list| && Covers(list[i], path)
  {
    if list == [] then false
    else if Covers(list[0], path) then true
    else
      assert forall i :: 1 <= i < |list| ==> list[i] == list[1..][i - 1];
      AnyCovers(list[1..], path)
  }

  function IsExcludedPath(path: string, excluded: Option<seq<string>>): (r: bool)
    ensures r <==> exists i :: 0 <= i < |EffectiveExcluded(excluded)| && Covers(EffectiveExcluded(excluded)[i], path)
  {
    AnyCovers(EffectiveExcluded(excluded), path)
  }

  /** Sub-paths of an excluded entry are excluded, look-alike prefixes are not, and
      because "/" is listed every path beginning with "//" is excluded. */
  lemma ExcludedPathExamples(rest: string)
    ensures IsExcludedPath("/auth/login/x", None)
    ensures !IsExcludedPath("/auth/loginx", None)
    ensures IsExcludedPath("//" + rest, None)
    ensures !IsExcludedPath("/bookmark/list", None)
    ensures IsExcludedPath("/auth/refresh", Some([]))
  {
    assert Covers(DefaultExcludedPaths[1], "/auth/login/x");
    DoubleSlashExcluded(rest);
    assert Covers(DefaultExcludedPaths[3], "/auth/refresh");
    LookAlikeProtected();
    BookmarkListProtected();
  }

  lemma DoubleSlashExcluded(rest: string)
    ensures Covers(DefaultExcludedPaths[0], "//" + rest)
  {
    assert ("//" + rest)[..2] == "//";
  }

  lemma LookAlikeProtected()
    ensures forall i :: 0 <= i < |DefaultExcludedPaths| ==> !Covers(DefaultExcludedPaths[i], "/auth/loginx")
  {
    forall i | 0 <= i < |DefaultExcludedPaths| ensures !Covers(DefaultExcludedPaths[i], "/auth/loginx") {
      assert "/auth/loginx"[1] == 'a' && "/auth/loginx"[11] == 'x';
    }
  }

  lemma BookmarkListProtected()
    ensures forall i :: 0 <= i < |DefaultExcludedPaths| ==> !Covers(DefaultExcludedPaths[i], "/bookmark/list")
  {
    forall i | 0 <= i < |DefaultExcludedPaths| ensures !Covers(DefaultExcludedPaths[i], "/bookmark/list") {
      assert "/bookmark/list"[1] == 'b';
      assert "/bookmark/list"[..2][1] == 'b';
    }
  }

  const AllowOriginHeader := "Access-Control-Allow-Origin"
  const AllowCredentialsHeader := "Access-Control-Allow-Credentials"

  /** get_cors_headers: the two headers echoing the origin when it is allowed, none otherwise. */
  function CorsHeaders(origin: Option<string>, allowed: set<string>): (h: map<string, string>)
    ensures h != map[] <==> origin.Some? && origin.value != "" && origin.value in allowed
    ensures h != map[] ==>
      h.Keys == {AllowOriginHeader, AllowCredentialsHeader}
      && h[AllowOriginHeader] == origin.value && h[AllowCredentialsHeader] == "true"
  {
    if origin.Some? && origin.value != "" && origin.value in allowed then
      var h := map[AllowOriginHeader := origin.value, AllowCredentialsHeader := "true"];
      assert AllowOriginHeader in h;
      h
    else
      map[]
  }

  /** With the configured origins the emptiness test on the origin is redundant:
      the empty string is never allowed. */
  lemma CorsHeadersConfigured(origin: Option<string>, s: Config.Settings)
    ensures CorsHeaders(origin, AllowedOrigins(s)) != map[] <==> origin.Some? && origin.value in Config.CorsOriginsList(s)
  {
  }

  /** The parts of a request the middleware looks at. */
  datatype Request = Request(httpMethod: string, path: string, origin: Option<string>, accessToken: Option<string>)

  /** Forward: call_next runs, with `request.state.user_id` set when `userId` is given.
      Respond: a JSON response {"detail": detail} with that status and headers. */
  datatype Outcome =
    | Forward(userId: Option<string>)
    | Respond(status: int, detail: string, headers: map<string, string>)

  /** The answer to any other exception, including one raised below call_next. */
  const UnexpectedErrorDetail := "An unexpected server error occurred during authentication."

  /** auth_http_middleware; `decode` stands for decoding an access token. */
  function Middleware(req: Request, allowed: set<string>, decode: string -> DecodeOutcome): (r: Outcome)
    ensures req.httpMethod == "OPTIONS" || IsExcludedPath(req.path, None) ==> r == Forward(None)
    ensures r.Respond? ==> r.headers == CorsHeaders(req.origin, allowed)
    ensures r.Forward? && r.userId.Some? ==>
      req.accessToken.Some? && r.userId.value != ""
      && VerifyToken(decode(req.accessToken.value), None) == Subject(r.userId.value)
  {
    if req.httpMethod == "OPTIONS" || IsExcludedPath(req.path, None) then
      Forward(None)
    else if req.accessToken.None? || req.accessToken.value == "" then
      Respond(401, "Authentication is required", CorsHeaders(req.origin, allowed))
    else
      match VerifyToken(decode(req.accessToken.value), None)
      case Subject(sub) =>
        if sub == "" then Respond(401, "Authentication failed (no payload)", CorsHeaders(req.origin, allowed))
        else Forward(Some(sub))
      case Denied(e) => Respond(e.status, e.detail, CorsHeaders(req.origin, allowed))
      case Unexpected =>
        Respond(500, UnexpectedErrorDetail, CorsHeaders(req.origin, allowed))
  }

  /** A protected request: not a preflight and not on an excluded path. */
  predicate Protected(req: Request) {
    req.httpMethod != "OPTIONS" && !IsExcludedPath(req.path, None)
  }

  /** The decision tree on a protected request, cause by cause. */
  lemma ProtectedOutcomes(req: Request, allowed: set<string>, decode: string -> DecodeOutcome)
    requires Protected(req)
    ensures req.accessToken.None? || req.accessToken.value == "" ==>
      Middleware(req, allowed, decode) == Respond(401, "Authentication is required", CorsHeaders(req.origin, allowed))
    ensures req.accessToken.Some? && req.accessToken.value != "" ==>
      var o := decode(req.accessToken.value);
      && (o.ExpiredSignature? ==> Middleware(req, allowed, decode) == Respond(401, ExpiredDetail, CorsHeaders(req.origin, allowed)))
      && (o.OtherJwtError? ==> Middleware(req, allowed, decode) == Respond(401, "Invalid token", CorsHeaders(req.origin, allowed)))
      && (o.Decoded? && o.claims.sub.None? ==>
            Middleware(req, allowed, decode) == Respond(401, "Invalid token payload", CorsHeaders(req.origin, allowed)))
      && (o.Decoded? && o.claims.sub == Some("") ==>
            Middleware(req, allowed, decode) == Respond(401, "Authentication failed (no payload)", CorsHeaders(req.origin, allowed)))
      && (o.Decoded? && o.claims.sub.Some? && o.claims.sub.value != "" ==>
            Middleware(req, allowed, decode) == Forward(o.claims.sub))
      && (o.OtherFailure? ==> Middleware(req, allowed, decode) == Respond(500, UnexpectedErrorDetail, CorsHeaders(req.origin, allowed)))
  {
  }

  /** Every response the middleware itself produces is a 401 or a 500; a request it
      forwards with a user id carried a token that decoded with a non-empty subject. */
  lemma ResponsesAre401Or500(req: Request, allowed: set<string>, decode: string -> DecodeOutcome)
    ensures Middleware(req, allowed, decode).Respond? ==>
      Middleware(req, allowed, decode).status == 401 || Middleware(req, allowed, decode).status == 500
    ensures Middleware(req, allowed, decode) == Forward(None) <==> !Protected(req)
  {
  }
}
