/** Token verification as the JWT strategy configures it (dist/main.js):
    bearer token, expiry enforced, the configured secret or the fallback,
    and `validate` mapping the claims onto the request's user.
    The signature scheme itself is an abstract capability. */
module Jwt {
  import opened Common

  /** The claims the signer writes: the three identity claims and the
      issue and expiry times (seconds on a natural-number clock). */
  datatype Payload = Payload(sub: int, email: string, fullname: string, iat: nat, exp: nat)

  /** What `validate` attaches to the request as `req.user`. */
  datatype AuthUser = AuthUser(userId: int, email: string, fullname: string)

  /** The key used when `JWT_SECRET` is unset or empty. */
  const FallbackSecret: string := "your-secret-key"

  /** `expiresIn: '24h'`, in seconds. */
  const ExpiresInSeconds: nat := 24 * 60 * 60

  /** `ignoreExpiration: false`: the verifier rejects expired tokens. */
  const IgnoreExpiration: bool := false

  /** `configService.get('JWT_SECRET') || 'your-secret-key'`; signer and
      verifier both compute the key this way. */
  function SecretOf(jwtSecret: Option<string>): (key: string)
    ensures TruthyString(jwtSecret) ==> key == jwtSecret.value
    ensures !TruthyString(jwtSecret) ==> key == FallbackSecret
    ensures key != ""
  {
    if TruthyString(jwtSecret) then jwtSecret.value else FallbackSecret
  }

  /** The signing library as a capability: `sign(payload, key)` gives a
      token, `decode(token, key)` checks the signature and gives the payload. */
  datatype Signer = Signer(
    sign: (Payload, string) -> string,
    decode: (string, string) -> Option<Payload>)

  /** The one law assumed of the library: a token decodes, under the key it
      was signed with, to the payload it was signed from. */
  ghost predicate LawfulSigner(s: Signer) {
    forall p, key :: s.decode(s.sign(p, key), key) == Some(p)
  }

  /** `JwtStrategy.validate`: `sub` becomes `userId`, the rest is copied. */
  function Validate(p: Payload): (u: AuthUser)
    ensures u.userId == p.sub
    ensures u.email == p.email && u.fullname == p.fullname
  {
    AuthUser(p.sub, p.email, p.fullname)
  }

  /** A token is expired from the second its `exp` is reached. */
  predicate Expired(p: Payload, now: nat) {
    now >= p.exp
  }

  /** The guard in front of every todo route: decode with the configured
      key, reject an expired token, then validate. */
  function Authenticate(s: Signer, jwtSecret: Option<string>, token: string, now: nat): (r: Result<AuthUser>)
    ensures r.Ok? <==> s.decode(token, SecretOf(jwtSecret)).Some?
                       && (IgnoreExpiration || now < s.decode(token, SecretOf(jwtSecret)).value.exp)
    ensures r.Ok? ==> r.value == Validate(s.decode(token, SecretOf(jwtSecret)).value)
    ensures r.Err? ==> r.error == Unauthorized("Unauthorized")
  {
    match s.decode(token, SecretOf(jwtSecret))
    case None => Err(Unauthorized("Unauthorized"))
    case Some(p) =>
      if !IgnoreExpiration && Expired(p, now) then Err(Unauthorized("Unauthorized"))
      else Ok(Validate(p))
  }
}
