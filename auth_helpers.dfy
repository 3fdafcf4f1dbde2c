/** The static helpers of the authentication core: password hashing, profile
    mapping, and the shape of the tokens it mints. The cryptographic library calls
    (SHA-256, JWT signing and validation) are oracles in a `Crypto` value, and the
    random draw behind a refresh token is a parameter. */
module AuthHelpers {
  import opened Options
  import opened Time
  import opened Text
  import Base64
  import opened UserRepository
  import opened AuthDtos

  /** A SHA-256 digest. */
  type Digest = d: seq<Base64.byte> | |d| == 32 witness seq(32, _ => 0 as Base64.byte)

  /** The 64 bytes `RandomNumberGenerator.GetBytes` fills for a refresh token. */
  type RandomBlock = b: seq<Base64.byte> | |b| == 64 witness seq(64, _ => 0 as Base64.byte)

  /** The role a user without a stored role is given, in the profile and in the token. */
  const DefaultRole: string := "User"

  /** `SecurityAlgorithms.HmacSha256Signature`. */
  const HmacSha256Signature: string := "http://www.w3.org/2001/04/xmldsig-more#hmac-sha256"

  datatype ClaimType = NameIdentifier | Name | Email | Role
  datatype Claim = Claim(claimType: ClaimType, value: string)

  datatype SigningCredentials = SigningCredentials(key: string, algorithm: string)

  /** `SecurityTokenDescriptor`: the claims, lifetime, issuer, audience and key of an access token. */
  datatype TokenDescriptor = TokenDescriptor(
    subject: seq<Claim>,
    expires: Instant,
    issuer: string,
    audience: string,
    signingCredentials: SigningCredentials)

  /** `TokenValidationParameters` with signing key, issuer, audience and lifetime all validated. */
  datatype ValidationParameters = ValidationParameters(
    issuerSigningKey: string,
    validIssuer: string,
    validAudience: string,
    clockSkewSeconds: int)

  /** The library calls, as deterministic oracles:
      `sha256` is `SHA256.ComputeHash(Encoding.UTF8.GetBytes(s))`;
      `writeToken` is `JwtSecurityTokenHandler.WriteToken(CreateToken(d))`, which also
      stamps the issue time; `validateToken` is `JwtSecurityTokenHandler.ValidateToken`
      returning normally with a `JwtSecurityToken`. */
  datatype Crypto = Crypto(
    sha256: string -> Digest,
    writeToken: (TokenDescriptor, Instant) -> string,
    validateToken: (string, ValidationParameters, Instant) -> bool)

  /** `HashPassword`: base 64 of the unsalted SHA-256 digest, 44 characters. */
  function HashPassword(crypto: Crypto, password: string): (hash: string)
    ensures |hash| == 44 && forall i :: 0 <= i < |hash| ==> Base64.IsBase64Char(hash[i])
  {
    Base64.EncodeAlphabet(crypto.sha256(password));
    Base64.Encode(crypto.sha256(password))
  }

  /** `VerifyPassword`: recompute the digest and compare the strings. A stored
      hash that is not 44 characters long never verifies. */
  function VerifyPassword(crypto: Crypto, password: string, hash: string): (ok: bool)
    ensures ok ==> |hash| == 44
  {
    HashPassword(crypto, password) == hash
  }

  /** The hash of a password verifies against that password. */
  lemma VerifyOwnHash(crypto: Crypto, password: string)
    ensures VerifyPassword(crypto, password, HashPassword(crypto, password))
  {
  }

  /** Comparing the base 64 texts is comparing the digests: a password verifies
      against a stored hash exactly when the two passwords have the same SHA-256
      digest. */
  lemma VerifyComparesDigests(crypto: Crypto, password: string, stored: string)
    ensures VerifyPassword(crypto, password, HashPassword(crypto, stored))
            <==> crypto.sha256(password) == crypto.sha256(stored)
  {
    Base64.EncodeInjective(crypto.sha256(password), crypto.sha256(stored));
  }

  /** `MapUserToDto`: the public fields copied, the role defaulted to "User". */
  function MapUserToDto(user: User): (dto: UserDto)
    ensures dto.id == user.id && dto.username == user.username && dto.email == user.email
    ensures dto.isActive == user.isActive && dto.createdAt == user.createdAt
    ensures user.role.None? ==> dto.role == DefaultRole
    ensures user.role.Some? ==> dto.role == user.role.value
  {
    UserDto(user.id, user.username, user.email, user.role.GetOr(DefaultRole), user.isActive, user.createdAt)
  }

  /** The claims of an access token for `user`. */
  function AccessTokenClaims(user: User): seq<Claim>
  {
    [ Claim(NameIdentifier, IntToString(user.id)),
      Claim(Name, user.username),
      Claim(Email, user.email),
      Claim(Role, user.role.GetOr(DefaultRole)) ]
  }

  /** `ClaimsPrincipal.FindFirst`: the value of the first claim of that type. */
  function FindFirst(claims: seq<Claim>, claimType: ClaimType): Option<string>
  {
    if claims == [] then None
    else if claims[0].claimType == claimType then Some(claims[0].value)
    else FindFirst(claims[1..], claimType)
  }

  /** `FindFirst` returns the value of the earliest claim of the type asked for. */
  lemma {:induction false} FindFirstAt(claims: seq<Claim>, claimType: ClaimType, k: nat)
    requires k < |claims| && claims[k].claimType == claimType
    requires forall j :: 0 <= j < k ==> claims[j].claimType != claimType
    ensures FindFirst(claims, claimType) == Some(claims[k].value)
  {
    if k > 0 {
      FindFirstAt(claims[1..], claimType, k - 1);
    }
  }

  /** The descriptor `GenerateAccessToken` hands to the token handler. */
  function AccessTokenDescriptor(user: User, secret: string, issuer: string, audience: string,
                                 expiryMinutes: int, now: Instant): TokenDescriptor
  {
    TokenDescriptor(AccessTokenClaims(user), AddMinutes(now, expiryMinutes), issuer, audience,
                    SigningCredentials(secret, HmacSha256Signature))
  }

  /** An access token identifies its user: the name-identifier claim parses back to
      the user's id, the name, email and role claims agree with the user's profile,
      and the token expires `expiryMinutes` after issue, for the configured issuer
      and audience, signed with HMAC-SHA-256 under the secret. */
  lemma AccessTokenIdentifiesUser(user: User, secret: string, issuer: string, audience: string,
                                  expiryMinutes: int, now: Instant)
    ensures var d := AccessTokenDescriptor(user, secret, issuer, audience, expiryMinutes, now);
      var profile := MapUserToDto(user);
      && FindFirst(d.subject, NameIdentifier).Some?
      && TryParseInt(FindFirst(d.subject, NameIdentifier).value) == Some(user.id)
      && FindFirst(d.subject, Name) == Some(profile.username)
      && FindFirst(d.subject, Email) == Some(profile.email)
      && FindFirst(d.subject, Role) == Some(profile.role)
      && d.expires == now + 60 * expiryMinutes
      && d.issuer == issuer && d.audience == audience
      && d.signingCredentials == SigningCredentials(secret, HmacSha256Signature)
  {
    IntToStringRoundTrip(user.id);
    var claims := AccessTokenClaims(user);
    FindFirstAt(claims, NameIdentifier, 0);
    FindFirstAt(claims, Name, 1);
    FindFirstAt(claims, Email, 2);
    FindFirstAt(claims, Role, 3);
  }

  /** `GenerateAccessToken`, with `now` for `DateTime.UtcNow`. */
  function GenerateAccessToken(crypto: Crypto, user: User, secret: string, issuer: string, audience: string,
                               expiryMinutes: int, now: Instant): (token: string)
    ensures exists d: TokenDescriptor ::
      && token == crypto.writeToken(d, now)
      && d.subject == AccessTokenClaims(user)
      && d.expires == AddMinutes(now, expiryMinutes)
      && d.issuer == issuer && d.audience == audience
      && d.signingCredentials == SigningCredentials(secret, HmacSha256Signature)
  {
    crypto.writeToken(AccessTokenDescriptor(user, secret, issuer, audience, expiryMinutes, now), now)
  }

  /** An access token depends on the user only through the four claims: the
      password hash, the refresh token, the active flag and the timestamps do
      not enter it. */
  lemma AccessTokenDependsOnClaimsOnly(crypto: Crypto, a: User, b: User, secret: string, issuer: string,
                                       audience: string, expiryMinutes: int, now: Instant)
    requires a.id == b.id && a.username == b.username && a.email == b.email
    requires a.role.GetOr(DefaultRole) == b.role.GetOr(DefaultRole)
    ensures GenerateAccessToken(crypto, a, secret, issuer, audience, expiryMinutes, now)
            == GenerateAccessToken(crypto, b, secret, issuer, audience, expiryMinutes, now)
  {
  }

  /** `GenerateRefreshToken`: base 64 of 64 random bytes, 88 characters. */
  function GenerateRefreshToken(random: RandomBlock): (token: string)
    ensures |token| == 88 && forall i :: 0 <= i < |token| ==> Base64.IsBase64Char(token[i])
  {
    Base64.EncodeAlphabet(random);
    Base64.Encode(random)
  }

  /** Different draws give different refresh tokens, so a token names the draw
      it came from. */
  lemma RefreshTokenInjective(a: RandomBlock, b: RandomBlock)
    ensures GenerateRefreshToken(a) == GenerateRefreshToken(b) <==> a == b
  {
    Base64.EncodeInjective(a, b);
  }
}
