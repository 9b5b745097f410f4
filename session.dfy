/** The session as a whole: the server's expiry signal, the refresh endpoint's
    token check, and what the client's interceptor makes of both. */
module Session {
  import opened Wrappers
  import opened AuthService
  import opened AuthMiddleware
  import AxiosClient
  import Config

  const RefreshTokenCookie := "refresh_token"

  /** The refresh cookie's Max-Age in seconds: the refresh token's default lifetime. */
  const RefreshCookieMaxAge := Config.RefreshTokenExpireDays * 24 * 60 * 60

  /** The refresh cookie the browser sends at `now`, for a cookie it stored at
      `storedAt`: a Max-Age cookie lapses once its expiry time, storedAt plus the
      Max-Age, has passed (RFC 6265, section 5.3). */
  function SentRefreshCookie(token: string, storedAt: int, now: int): (r: Option<string>)
    ensures r.Some? <==> now <= storedAt + RefreshCookieMaxAge
    ensures r.Some? ==> r.value == token
  {
    if now <= storedAt + RefreshCookieMaxAge then Some(token) else None
  }

  /** The token check of the refresh endpoint: a missing or empty refresh cookie is
      refused, any other is verified as a refresh token. */
  function RefreshEndpointCheck(refreshCookie: Option<string>, decode: string -> DecodeOutcome): (r: Verified)
    ensures refreshCookie.None? || refreshCookie.value == "" ==> r == Denied(HttpError(401, "Missing refresh token"))
    ensures refreshCookie.Some? && refreshCookie.value != "" ==>
      r == VerifyToken(decode(refreshCookie.value), Some(RefreshType))
  {
    if refreshCookie.None? || refreshCookie.value == "" then Denied(HttpError(401, "Missing refresh token"))
    else VerifyToken(decode(refreshCookie.value), Some(RefreshType))
  }

  /** The error the client receives for a JSON error response. */
  function ClientFailure(status: int, detail: string): AxiosClient.Failure {
    AxiosClient.Failure(Some(AxiosClient.ErrorBody(status, Some(detail))))
  }

  /** An expired access token on a protected path produces exactly the signal the
      client's interceptor refreshes on: a first-time request then starts a refresh. */
  lemma ExpiredAccessTokenStartsRefresh(req: Request, allowed: set<string>, decode: string -> DecodeOutcome, sent: AxiosClient.Request)
    requires Protected(req) && req.accessToken.Some? && req.accessToken.value != ""
    requires decode(req.accessToken.value).ExpiredSignature?
    requires !sent.retry
    ensures Middleware(req, allowed, decode).Respond?
    ensures var r := Middleware(req, allowed, decode);
      r.status == 401 && AxiosClient.IsExpirySignal(ClientFailure(r.status, r.detail))
    ensures var r := Middleware(req, allowed, decode);
      AxiosClient.Decide(sent, ClientFailure(r.status, r.detail), false, false) == AxiosClient.StartRefresh
  {
    ProtectedOutcomes(req, allowed, decode);
  }

  /** The refresh endpoint is on the excluded list, so its request reaches the
      endpoint without an access-token check; if the refresh token has expired the
      endpoint answers with the same expiry signal, and the client as written queues
      its own refresh call behind the refresh in progress. With the auth endpoints
      excluded on the client the answer is passed through instead. */
  lemma ExpiredRefreshTokenStallsClient(
    subject: string, issued: int, delta: Option<int>, now: int,
    token: string, origin: Option<string>, allowed: set<string>, decode: string -> DecodeOutcome)
    requires now > CreateRefreshClaims(subject, issued, delta).exp
    requires token != "" && decode(token) == DecodeAt(CreateRefreshClaims(subject, issued, delta), now)
    ensures Middleware(Request("POST", AxiosClient.RefreshPath, origin, None), allowed, decode) == Forward(None)
    ensures RefreshEndpointCheck(Some(token), decode) == Denied(HttpError(401, ExpiredDetail))
    ensures var f := ClientFailure(401, ExpiredDetail);
      && AxiosClient.Decide(AxiosClient.RefreshRequest, f, true, false) == AxiosClient.Enqueue
      && AxiosClient.Decide(AxiosClient.RefreshRequest, f, true, true) == AxiosClient.PassThrough
  {
    assert Covers(DefaultExcludedPaths[3], AxiosClient.RefreshPath);
    assert IsExcludedPath(AxiosClient.RefreshPath, None);
  }

  /** The usual end of a session: the refresh cookie lapses together with its token,
      so the browser no longer sends it; the endpoint answers "Missing refresh token",
      which is no expiry signal, and the client as written passes it through, rejecting
      the queue and redirecting to the login page. */
  lemma LapsedCookieEndsSession(token: string, storedAt: int, now: int, decode: string -> DecodeOutcome)
    requires now > storedAt + RefreshCookieMaxAge
    ensures RefreshEndpointCheck(SentRefreshCookie(token, storedAt, now), decode) == Denied(HttpError(401, "Missing refresh token"))
    ensures AxiosClient.Decide(AxiosClient.RefreshRequest, ClientFailure(401, "Missing refresh token"), true, false) == AxiosClient.PassThrough
  {
  }

  /** When the stall can happen: a refresh token issued at `issued` with the default
      lifetime, whose cookie the browser stored at `storedAt` (no earlier than the
      issue, by the response's latency), gives the expiry signal at the refresh
      endpoint exactly in the window after the token's `exp` and before the cookie
      lapses, which is as long as that latency. */
  lemma StallWindow(subject: string, issued: int, storedAt: int, now: int, token: string, decode: string -> DecodeOutcome)
    requires issued <= storedAt && issued <= now
    requires token != "" && decode(token) == DecodeAt(CreateRefreshClaims(subject, issued, None), now)
    ensures CreateRefreshClaims(subject, issued, None).exp == issued + RefreshCookieMaxAge
    ensures RefreshEndpointCheck(SentRefreshCookie(token, storedAt, now), decode) == Denied(HttpError(401, ExpiredDetail))
      <==> issued + RefreshCookieMaxAge < now <= storedAt + RefreshCookieMaxAge
  {
    RefreshTokenLifecycle(subject, issued, now, None, Some(RefreshType));
  }
}
