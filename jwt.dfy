/** Signed tokens.  Signing is an opaque function injected with the JWT
    service; the model never looks inside a token. */
module Jwt {
  import opened Common
  import opened UserEntity

  /** The claims of a token: `{ sub, email, role }`, and the issue and
      expiry times (seconds) that the signer adds. */
  datatype JwtPayload = JwtPayload(sub: int, email: string, role: Role, iat: Option<int>, exp: Option<int>)

  /** The signing function: a complete payload, with its `iat` and `exp`,
      and a secret, to a compact token. */
  type Signer = (JwtPayload, string) -> string

  /** The payload `jwtService.signAsync(payload, { secret, expiresIn })`
      signs at time `now`: the given claims with `iat` set to `now` and
      `exp` to `now + expiresIn`. */
  function Stamped(claims: JwtPayload, now: int, expiresIn: int): (p: JwtPayload)
    ensures p.sub == claims.sub && p.email == claims.email && p.role == claims.role
    ensures p.iat == Some(now) && p.exp == Some(now + expiresIn)
  {
    claims.(iat := Some(now), exp := Some(now + expiresIn))
  }

  /** Tokens issued at two different times are signed from two different
      payloads, whatever the claims. */
  lemma StampedDiffersOverTime(claims: JwtPayload, now1: int, now2: int, expiresIn: int)
    requires now1 != now2
    ensures Stamped(claims, now1, expiresIn) != Stamped(claims, now2, expiresIn)
  {
    assert Stamped(claims, now1, expiresIn).iat != Stamped(claims, now2, expiresIn).iat;
  }

  /** The configuration values the token issuer reads. */
  datatype JwtConfig = JwtConfig(
    accessSecret: string,
    refreshSecret: string,
    accessExpiration: int,
    refreshExpiration: int)

  /** A fresh token pair and the access lifetime in seconds. */
  datatype Tokens = Tokens(accessToken: string, refreshToken: string, expiresIn: int)

  /** Which configured secret a verification strategy is keyed with. */
  datatype SecretKey = AccessSecretKey | RefreshSecretKey

  /** What a passport-jwt strategy is constructed with: the secret, whether
      expiry is ignored, and whether the raw request reaches `validate`.
      The secret is tied to signing by `Auth.TokensSignedForTheirStrategies`;
      the two flags only transcribe the configuration, since verifying a
      token is left to the library. */
  datatype StrategyOptions = StrategyOptions(secret: SecretKey, ignoreExpiration: bool, passRequest: bool)

  /** The access-token strategy ('jwt'). */
  const AccessStrategyOptions: StrategyOptions := StrategyOptions(AccessSecretKey, false, false)

  /** The refresh-token strategy ('jwt-refresh'). */
  const RefreshStrategyOptions: StrategyOptions := StrategyOptions(RefreshSecretKey, false, true)

  /** The configured secret a strategy's key names. */
  function SecretOf(key: SecretKey, config: JwtConfig): string {
    match key
    case AccessSecretKey => config.accessSecret
    case RefreshSecretKey => config.refreshSecret
  }

  /** The two strategies are keyed with different secrets and neither
      accepts an expired token. */
  lemma StrategiesUseOwnSecrets()
    ensures AccessStrategyOptions.secret == AccessSecretKey
    ensures RefreshStrategyOptions.secret == RefreshSecretKey
    ensures AccessStrategyOptions.secret != RefreshStrategyOptions.secret
    ensures !AccessStrategyOptions.ignoreExpiration && !RefreshStrategyOptions.ignoreExpiration
  {
  }
}
