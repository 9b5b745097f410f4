/** Token issuing and verification on the backend. Signing and decoding are
    cryptography and are not modelled: a token is represented by the claims it
    carries, and decoding is an outcome supplied from outside (decoded claims,
    an expired signature, another JWT error, or some other exception). Times are
    whole seconds since the epoch. */
module AuthService {
  import opened Wrappers
  import Config

  /** The claims the service reads and writes: `exp`, `sub` and `type`. */
  datatype Claims = Claims(exp: int, sub: Option<string>, ttype: Option<string>)

  /** What decoding a token yields. */
  datatype DecodeOutcome = Decoded(claims: Claims) | ExpiredSignature | OtherJwtError | OtherFailure

  /** verify_token's result: the subject, an HTTPException it raises, or an exception it lets escape. */
  datatype Verified = Subject(sub: string) | Denied(error: HttpError) | Unexpected

  const AccessType := "access"
  const RefreshType := "refresh"
  const ExpiredDetail := "ACCESS_TOKEN_EXPIRED"

  /** `expires_delta or default`: a missing delta and a zero delta are both falsy. */
  function Lifetime(expiresDelta: Option<int>, default: int): int {
    if expiresDelta.Some? && expiresDelta.value != 0 then expiresDelta.value else default
  }

  function CreateAccessClaims(subject: string, now: int, expiresDelta: Option<int>): Claims {
    Claims(now + Lifetime(expiresDelta, Config.AccessTokenExpireMinutes * 60), Some(subject), Some(AccessType))
  }

  function CreateRefreshClaims(subject: string, now: int, expiresDelta: Option<int>): Claims {
    Claims(now + Lifetime(expiresDelta, Config.RefreshTokenExpireDays * 24 * 60 * 60), Some(subject), Some(RefreshType))
  }

  /** Decoding a well-signed token at time `now`: the signature counts as expired once
      `now` is past `exp`. */
  function DecodeAt(c: Claims, now: int): DecodeOutcome {
    if c.exp < now then ExpiredSignature else Decoded(c)
  }

  /** An `expected_type` that is missing or empty imposes no check. */
  predicate ChecksType(expectedType: Option<string>) {
    expectedType.Some? && expectedType.value != ""
  }

  /** verify_token: classifies the decode outcome. */
  function VerifyToken(outcome: DecodeOutcome, expectedType: Option<string>): (r: Verified)
    ensures r.Subject? <==>
      outcome.Decoded? && outcome.claims.sub.Some?
      && (!ChecksType(expectedType) || outcome.claims.ttype == expectedType)
    ensures r.Subject? ==> Some(r.sub) == outcome.claims.sub
    ensures r.Denied? ==> r.error.status == 401
    ensures r == Denied(HttpError(401, ExpiredDetail)) <==> outcome.ExpiredSignature?
    ensures r == Denied(HttpError(401, "Invalid token")) <==> outcome.OtherJwtError?
    ensures r == Denied(HttpError(401, "Invalid token payload")) <==> outcome.Decoded? && outcome.claims.sub.None?
    ensures r == Denied(HttpError(401, "Invalid token type")) <==>
      outcome.Decoded? && outcome.claims.sub.Some? && ChecksType(expectedType) && outcome.claims.ttype != expectedType
    ensures r.Unexpected? <==> outcome.OtherFailure?
  {
    match outcome
    case Decoded(c) =>
      if c.sub.None? then Denied(HttpError(401, "Invalid token payload"))
      else if ChecksType(expectedType) && c.ttype != expectedType then Denied(HttpError(401, "Invalid token type"))
      else Subject(c.sub.value)
    case ExpiredSignature => Denied(HttpError(401, ExpiredDetail))
    case OtherJwtError => Denied(HttpError(401, "Invalid token"))
    case OtherFailure => Unexpected
  }

  /** A freshly issued token of either kind verifies to its subject until its `exp`
      when the expected type is its own or none, and is refused as the other type. */
  lemma IssuedTokensVerify(subject: string, issued: int, now: int, delta: Option<int>)
    requires delta.Some? ==> delta.value >= 0
    requires issued <= now <= issued + Lifetime(delta, Config.AccessTokenExpireMinutes * 60)
    ensures VerifyToken(DecodeAt(CreateAccessClaims(subject, issued, delta), now), Some(AccessType)) == Subject(subject)
    ensures VerifyToken(DecodeAt(CreateAccessClaims(subject, issued, delta), now), None) == Subject(subject)
    ensures VerifyToken(DecodeAt(CreateAccessClaims(subject, issued, delta), now), Some(RefreshType))
      == Denied(HttpError(401, "Invalid token type"))
  {
  }

  /** The default lifetimes: 60 minutes for access tokens and 7 days for refresh tokens. */
  lemma DefaultLifetimes(subject: string, issued: int)
    ensures CreateAccessClaims(subject, issued, None).exp == issued + 3600
    ensures CreateRefreshClaims(subject, issued, None).exp == issued + 604800
    ensures CreateAccessClaims(subject, issued, Some(0)) == CreateAccessClaims(subject, issued, None)
    ensures CreateRefreshClaims(subject, issued, Some(0)) == CreateRefreshClaims(subject, issued, None)
  {
  }

  /** A refresh token verifies as a refresh token until its `exp`, is refused as an
      access token, and once past its `exp` gives the same ACCESS_TOKEN_EXPIRED
      signal as an expired access token, whatever type is expected. */
  lemma RefreshTokenLifecycle(subject: string, issued: int, now: int, delta: Option<int>, expectedType: Option<string>)
    requires delta.Some? ==> delta.value >= 0
    ensures var c := CreateRefreshClaims(subject, issued, delta);
      issued <= now <= c.exp ==> VerifyToken(DecodeAt(c, now), Some(RefreshType)) == Subject(subject)
    ensures var c := CreateRefreshClaims(subject, issued, delta);
      issued <= now <= c.exp ==> VerifyToken(DecodeAt(c, now), Some(AccessType)) == Denied(HttpError(401, "Invalid token type"))
    ensures var c := CreateRefreshClaims(subject, issued, delta);
      now > c.exp ==> VerifyToken(DecodeAt(c, now), expectedType) == Denied(HttpError(401, ExpiredDetail))
    ensures var c := CreateAccessClaims(subject, issued, delta);
      now > c.exp ==> VerifyToken(DecodeAt(c, now), expectedType) == Denied(HttpError(401, ExpiredDetail))
  {
  }

  /** A missing `sub` is reported before the type is looked at. */
  lemma SubjectCheckedBeforeType(exp: int, ttype: Option<string>, expectedType: Option<string>)
    ensures VerifyToken(Decoded(Claims(exp, None, ttype)), expectedType) == Denied(HttpError(401, "Invalid token payload"))
  {
  }
}
