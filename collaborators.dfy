/**
 * The foreign libraries the handlers call, as records of functions: bcrypt,
 * jsonwebtoken and sanitize-html. Nothing is assumed about them beyond the
 * `...Lawful` predicates, which the members that need them take as `requires`.
 */
module Collaborators {
  import opened Opt

  /** The JWT signing secret (`process.env.JWTSECRET`), fixed configuration. */
  type Secret = string

  /**
   * The payload the server signs and `jwt.verify` hands back. `iat` is the
   * issue time jsonwebtoken adds on signing; `userId` is `None` when the
   * payload was signed with `userId: undefined` (JSON drops the key).
   */
  datatype Claims = Claims(exp: int, skyColor: string, userId: Option<int>, username: string, iat: int)

  /** `bcrypt.hashSync(password, salt)` and `bcrypt.compareSync(password, hash)`. */
  datatype Bcrypt = Bcrypt(hashSync: (string, string) -> string, compareSync: (string, string) -> bool)

  /** A password always matches a hash made from it, whatever the salt. */
  ghost predicate BcryptLawful(bcrypt: Bcrypt) {
    forall password: string, salt: string :: bcrypt.compareSync(password, bcrypt.hashSync(password, salt))
  }

  /**
   * `jwt.sign(claims, secret)` and `jwt.verify(token, secret)` with the
   * library's clock, in whole seconds, passed in explicitly. `None` stands for
   * every error `jwt.verify` throws (missing, malformed, badly signed, expired).
   */
  datatype Jwt = Jwt(sign: (Claims, Secret) -> string, verify: (string, Secret, int) -> Option<Claims>)

  /**
   * A token signed with the secret verifies to its own claims until their
   * `exp` and fails from then on (both signing sites set `exp`, and
   * jsonwebtoken checks it whenever it is present); and tokens cannot be
   * forged: only the server holds the secret, so every token that verifies
   * is the signature of the claims it yields.
   */
  ghost predicate JwtLawful(jwt: Jwt) {
    && (forall claims: Claims, secret: Secret, now: int ::
          jwt.verify(jwt.sign(claims, secret), secret, now) == if now < claims.exp then Some(claims) else None)
    && (forall token: string, secret: Secret, now: int ::
          jwt.verify(token, secret, now).Some? ==> token == jwt.sign(jwt.verify(token, secret, now).value, secret))
  }

  /** `sanitizeHTML(s, { allowedTags: [], allowedAttributes: {} })`. */
  type Sanitizer = string -> string

  /** Sanitising the empty string gives the empty string. */
  ghost predicate SanitizerLawful(sanitize: Sanitizer) {
    sanitize("") == ""
  }
}
