/**
 * Sessions: the claims the login and register handlers sign, the
 * middleware that turns the `OurSUperApp` cookie into `req.user`, and the
 * `mustBeLoggedIn` gate.
 */
module Session {
  import opened Opt
  import opened Collaborators

  /** A token's lifetime: `60 * 60 * 24` seconds. */
  const TOKEN_LIFETIME := 60 * 60 * 24

  /**
   * The payload signed at lines 121-124 and 178-181. `exp` comes from the
   * handler's own `Date.now()`, `nowMs`. jsonwebtoken then adds `iat` from
   * its own clock reading, `signMs`, taken a moment later.
   */
  function SessionClaims(userId: Option<int>, username: string, nowMs: nat, signMs: nat): (c: Claims)
    ensures c.userId == userId && c.username == username
    ensures (c.exp - TOKEN_LIFETIME) * 1000 <= nowMs < (c.exp - TOKEN_LIFETIME + 1) * 1000
    ensures c.iat * 1000 <= signMs < (c.iat + 1) * 1000
  {
    Claims(exp := nowMs / 1000 + TOKEN_LIFETIME, skyColor := "blue", userId := userId,
           username := username, iat := signMs / 1000)
  }

  /**
   * Freshly signed claims expire at most one day after `iat`, since the
   * library reads its clock after the handler does. If the two readings are
   * less than a second apart, they expire at least a day minus one second
   * after `iat`.
   */
  lemma SessionClaimsExpiry(userId: Option<int>, username: string, nowMs: nat, signMs: nat)
    ensures var c := SessionClaims(userId, username, nowMs, signMs);
            && (nowMs <= signMs ==> c.exp <= c.iat + TOKEN_LIFETIME)
            && (nowMs <= signMs < nowMs + 1000 ==> c.iat + TOKEN_LIFETIME - 1 <= c.exp)
  {
  }

  /** At a second boundary the two clock readings fall in different seconds, and the token lives a second short of a day. */
  lemma SecondBoundaryShortensLifetime()
    ensures var c := SessionClaims(Some(1), "alice", 999, 1000);
            c.exp == c.iat + TOKEN_LIFETIME - 1
  {
  }

  /** `req.user`: the decoded claims, or `false`. */
  datatype Identity = Anonymous | Authenticated(user: Claims)

  /**
   * The middleware at lines 57-63: `jwt.verify` on the cookie; an absent
   * cookie makes it throw, as does every failed verification, and the catch
   * turns each into `Anonymous`.
   */
  function ResolveIdentity(cookie: Option<string>, jwt: Jwt, secret: Secret, nowMs: nat): (identity: Identity)
    ensures identity.Authenticated? <==> cookie.Some? && jwt.verify(cookie.value, secret, nowMs / 1000).Some?
    ensures identity.Authenticated? ==> Some(identity.user) == jwt.verify(cookie.value, secret, nowMs / 1000)
  {
    match cookie
    case None => Anonymous
    case Some(token) =>
      match jwt.verify(token, secret, nowMs / 1000)
      case None => Anonymous
      case Some(claims) => Authenticated(claims)
  }

  /** An identity is only ever established from claims that have not expired. */
  lemma AuthenticatedIsUnexpired(cookie: Option<string>, jwt: Jwt, secret: Secret, nowMs: nat)
    requires JwtLawful(jwt)
    ensures var identity := ResolveIdentity(cookie, jwt, secret, nowMs);
            identity.Authenticated? ==> nowMs / 1000 < identity.user.exp
  {
  }

  /**
   * A token the server signed resolves to its claims while `exp` lies in the
   * future and to `Anonymous` from `exp` on.
   */
  lemma SessionLifetime(claims: Claims, jwt: Jwt, secret: Secret, nowMs: nat)
    requires JwtLawful(jwt)
    ensures ResolveIdentity(Some(jwt.sign(claims, secret)), jwt, secret, nowMs)
            == if nowMs / 1000 < claims.exp then Authenticated(claims) else Anonymous
  {
  }

  /** What `mustBeLoggedIn` does: `next()` with the user, or a redirect to `/`. */
  datatype Gate = Proceed(user: Claims) | RedirectHome

  function MustBeLoggedIn(identity: Identity): (gate: Gate)
    ensures gate.Proceed? <==> identity.Authenticated?
    ensures gate.Proceed? ==> gate.user == identity.user
  {
    match identity
    case Anonymous => RedirectHome
    case Authenticated(user) => Proceed(user)
  }

  /** A request without a cookie, or whose token does not verify, never gets past the gate. */
  lemma GateNeedsVerifiedToken(cookie: Option<string>, jwt: Jwt, secret: Secret, nowMs: nat)
    ensures var gate := MustBeLoggedIn(ResolveIdentity(cookie, jwt, secret, nowMs));
            gate.Proceed? <==> cookie.Some? && jwt.verify(cookie.value, secret, nowMs / 1000).Some?
  {
  }

  /** A request whose session has expired is sent back to `/`. */
  lemma ExpiredSessionRedirected(claims: Claims, jwt: Jwt, secret: Secret, nowMs: nat)
    requires JwtLawful(jwt)
    requires nowMs / 1000 >= claims.exp
    ensures MustBeLoggedIn(ResolveIdentity(Some(jwt.sign(claims, secret)), jwt, secret, nowMs)) == RedirectHome
  {
  }
}
