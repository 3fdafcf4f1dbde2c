/** The authentication service: login, registration, refresh-token rotation,
    logout and access-token validation, as steps over the users table. Every
    operation takes the current instant `now` as an argument, and the ones that
    mint a refresh token take the random bytes it is made of. */
module AuthService {
  import opened Options
  import opened Time
  import opened Text
  import opened UserRepository
  import opened AuthDtos
  import opened AuthHelpers

  const DefaultIssuer: string := "EchoWarehouse"
  const DefaultAudience: string := "EchoWarehouseApp"
  const DefaultAccessTokenExpiryMinutes: int := 15
  const DefaultRefreshTokenExpiryDays: int := 7

  /** A registration password must have at least this many UTF-16 code units. */
  const MinPasswordLength: nat := 6

  /** The `Jwt:` section of the configuration, each key missing or holding its text. */
  datatype JwtSettings = JwtSettings(
    secret: Option<string>,
    issuer: Option<string>,
    audience: Option<string>,
    accessTokenExpiryMinutes: Option<string>,
    refreshTokenExpiryDays: Option<string>)

  /** The configuration the service runs with. */
  datatype JwtConfig = JwtConfig(
    secret: string,
    issuer: string,
    audience: string,
    accessTokenExpiryMinutes: int,
    refreshTokenExpiryDays: int)

  /** `int.TryParse(text, out var v) ? v : default`. */
  function ParseOr(text: Option<string>, default: int): (value: int)
    ensures text.None? ==> value == default
    ensures text.Some? && TryParseInt(text.value).None? ==> value == default
    ensures forall i :: text == Some(IntToString(i)) ==> value == i
  {
    IntToStringRoundTripAll();
    match text
    case None => default
    case Some(t) => TryParseInt(t).GetOr(default)
  }

  /** What the constructor reads: no secret is an error (the constructor throws);
      a missing issuer or audience takes its default, and a lifetime that is
      missing or does not parse takes its default. */
  function LoadConfig(settings: JwtSettings): (config: Option<JwtConfig>)
    ensures config.None? <==> settings.secret.None?
    ensures config.Some? ==> config.value.secret == settings.secret.value
  {
    match settings.secret
    case None => None
    case Some(secret) =>
      Some(JwtConfig(secret,
                     settings.issuer.GetOr(DefaultIssuer),
                     settings.audience.GetOr(DefaultAudience),
                     ParseOr(settings.accessTokenExpiryMinutes, DefaultAccessTokenExpiryMinutes),
                     ParseOr(settings.refreshTokenExpiryDays, DefaultRefreshTokenExpiryDays)))
  }

  /** With only a secret configured, the service issues tokens as "EchoWarehouse"
      for "EchoWarehouseApp", lasting 15 minutes, with refresh tokens lasting 7 days. */
  lemma DefaultConfig(secret: string)
    ensures LoadConfig(JwtSettings(Some(secret), None, None, None, None))
            == Some(JwtConfig(secret, "EchoWarehouse", "EchoWarehouseApp", 15, 7))
  {
  }

  /** A lifetime written as a decimal number is taken as written. */
  lemma ConfiguredLifetimes(secret: string, minutes: int, days: int)
    ensures var config := LoadConfig(JwtSettings(Some(secret), None, None,
                                                 Some(IntToString(minutes)), Some(IntToString(days))));
      config.Some? && config.value.accessTokenExpiryMinutes == minutes && config.value.refreshTokenExpiryDays == days
  {
  }

  /** The guard of `LoginAsync` together with the checks on the user found:
      some row has that username, is active, and its hash verifies the password. */
  predicate LoginAccepted(crypto: Crypto, rows: Table, request: LoginRequest)
  {
    && !IsNullOrWhiteSpace(request.username)
    && !IsNullOrWhiteSpace(request.password)
    && exists id :: id in rows && rows[id].username == request.username && rows[id].isActive
                    && VerifyPassword(crypto, request.password, rows[id].passwordHash)
  }

  /** The input checks of `RegisterAsync`, before the store is consulted. */
  predicate RegisterInputValid(request: RegisterRequest)
  {
    && !IsNullOrWhiteSpace(request.username)
    && !IsNullOrWhiteSpace(request.email)
    && !IsNullOrWhiteSpace(request.password)
    && request.password == request.passwordConfirm
    && Utf16Length(request.password) >= MinPasswordLength
  }

  /** The user `RegisterAsync` builds before the insert assigns its id. */
  function NewUser(crypto: Crypto, request: RegisterRequest, now: Instant): (user: User)
    ensures user.username == request.username && user.email == request.email
    ensures VerifyPassword(crypto, request.password, user.passwordHash)
    ensures user.isActive && user.role == Some(DefaultRole) && user.createdAt == now
    ensures user.refreshToken.None? && user.refreshTokenExpiryTime.None? && user.updatedAt.None?
  {
    User(0, request.username, request.email, HashPassword(crypto, request.password),
         None, None, true, now, None, Some(DefaultRole))
  }

  /** The row a registration stores: active, role "User", the unsalted hash of the
      password, no refresh token, no expiry, never updated. */
  lemma RegisteredRow(crypto: Crypto, request: RegisterRequest, now: Instant, id: int)
    ensures var row := InsertedRow(NewUser(crypto, request, now), id);
      && row.id == id && row.username == request.username && row.email == request.email
      && row.isActive && row.role == Val(DefaultRole)
      && row.passwordHash == HashPassword(crypto, request.password)
      && VerifyPassword(crypto, request.password, row.passwordHash)
      && row.refreshToken == DbNull && row.refreshTokenExpiryTime == DbNull
      && row.createdAt == now && row.updatedAt == DbNull
  {
  }

  class AuthService {
    const config: JwtConfig
    const crypto: Crypto
    const users: UserTable

    /** The table is well formed, and no two users share a username, an email
        or a refresh token. */
    ghost predicate Valid()
      reads this, users
    {
      && users.Valid()
      && UniqueIdentities(users.rows)
      && UniqueRefreshTokens(users.rows)
    }

    constructor (config: JwtConfig, crypto: Crypto, users: UserTable)
      requires users.Valid() && UniqueIdentities(users.rows) && UniqueRefreshTokens(users.rows)
      ensures Valid()
      ensures this.config == config && this.crypto == crypto && this.users == users
    {
      this.config := config;
      this.crypto := crypto;
      this.users := users;
    }

    function ValidationParams(): ValidationParameters
    {
      ValidationParameters(config.secret, config.issuer, config.audience, 0)
    }

    /** `LoginAsync`. `random` is the draw behind the new refresh token, which the
        generator guarantees no row holds. Every failure, whatever its cause, gives
        the same response and leaves the table as it was. */
    method Login(request: LoginRequest, now: Instant, random: RandomBlock) returns (response: LoginResponse)
      requires Valid()
      requires !TokenStored(users.rows, GenerateRefreshToken(random))
      modifies users
      ensures Valid() && users.nextId == old(users.nextId)
      ensures response.success <==> LoginAccepted(crypto, old(users.rows), request)
      ensures !response.success ==> response == LoginFailed && users.rows == old(users.rows)
      ensures response.success ==>
        && response.user.Some?
        && var id := response.user.value.id;
        && id in old(users.rows)
        && var user := ReadUser(Some(old(users.rows)[id])).value;
        && user.username == request.username
        && response.user == Some(MapUserToDto(user))
        && response.accessToken == Some(GenerateAccessToken(crypto, user, config.secret, config.issuer,
                                                            config.audience, config.accessTokenExpiryMinutes, now))
        && response.refreshToken == Some(GenerateRefreshToken(random))
        && response.expiresAt == AddMinutes(now, config.accessTokenExpiryMinutes)
        && users.rows == WithRefreshToken(old(users.rows), id, GenerateRefreshToken(random),
                                          AddDays(now, config.refreshTokenExpiryDays), now)
    {
      if IsNullOrWhiteSpace(request.username) || IsNullOrWhiteSpace(request.password) {
        return LoginFailed;
      }
      var found := users.GetByUsername(request.username);
      if found.None? || !found.value.isActive || !VerifyPassword(crypto, request.password, found.value.passwordHash) {
        return LoginFailed;
      }
      var user := found.value;
      var accessToken := GenerateAccessToken(crypto, user, config.secret, config.issuer, config.audience,
                                             config.accessTokenExpiryMinutes, now);
      var refreshToken := GenerateRefreshToken(random);
      var expiresAt := AddMinutes(now, config.accessTokenExpiryMinutes);
      var refreshExpiry := AddDays(now, config.refreshTokenExpiryDays);
      WithRefreshTokenKeepsUnique(users.rows, user.id, refreshToken, refreshExpiry, now);
      users.UpdateRefreshToken(user.id, refreshToken, refreshExpiry, now);
      response := LoginResponse(true, Some(accessToken), Some(refreshToken), expiresAt, Some(MapUserToDto(user)));
    }

    /** `RegisterAsync`. A failure creates no row; a success creates exactly one,
        under a new id, and returns its profile. */
    method Register(request: RegisterRequest, now: Instant) returns (response: RegisterResponse)
      requires Valid()
      modifies users
      ensures Valid()
      ensures response.success <==>
        RegisterInputValid(request) && !IdentityTaken(old(users.rows), request.username, request.email)
      ensures !response.success ==>
        response == RegisterFailed && users.rows == old(users.rows) && users.nextId == old(users.nextId)
      ensures response.success ==>
        && response.user.Some?
        && var id := response.user.value.id;
        && id !in old(users.rows)
        && users.rows == old(users.rows)[id := InsertedRow(NewUser(crypto, request, now), id)]
        && |users.rows| == |old(users.rows)| + 1
        && response.user == Some(MapUserToDto(NewUser(crypto, request, now).(id := id)))
    {
      if IsNullOrWhiteSpace(request.username) || IsNullOrWhiteSpace(request.email)
         || IsNullOrWhiteSpace(request.password) {
        return RegisterFailed;
      }
      if request.password != request.passwordConfirm {
        return RegisterFailed;
      }
      if Utf16Length(request.password) < MinPasswordLength {
        return RegisterFailed;
      }
      var taken := users.UserExists(request.username, request.email);
      if taken {
        return RegisterFailed;
      }
      var newUser := NewUser(crypto, request, now);
      InsertKeepsUnique(users.rows, newUser, users.nextId);
      var newUserId := users.CreateUser(newUser);
      newUser := newUser.(id := newUserId);
      response := RegisterResponse(true, Some(MapUserToDto(newUser)));
    }

    /** `RefreshTokenAsync`: rotation. A token that some row holds with an expiry
        after `now` is replaced on that row by a new one, whatever the row's
        active flag; afterwards the presented token matches no row at any time. */
    method RefreshToken(refreshToken: string, now: Instant, random: RandomBlock) returns (response: RefreshTokenResponse)
      requires Valid()
      requires !TokenStored(users.rows, GenerateRefreshToken(random))
      modifies users
      ensures Valid() && users.nextId == old(users.nextId)
      ensures response.success <==>
        && !IsNullOrWhiteSpace(refreshToken)
        && exists id :: id in old(users.rows) && HoldsLiveToken(old(users.rows)[id], refreshToken, now)
      ensures !response.success ==> response == RefreshFailed && users.rows == old(users.rows)
      ensures response.success ==>
        exists id :: id in old(users.rows) && HoldsLiveToken(old(users.rows)[id], refreshToken, now)
          && users.rows == WithRefreshToken(old(users.rows), id, GenerateRefreshToken(random),
                                            AddDays(now, config.refreshTokenExpiryDays), now)
          && response == RefreshTokenResponse(
               true,
               Some(GenerateAccessToken(crypto, ReadUser(Some(old(users.rows)[id])).value, config.secret,
                                        config.issuer, config.audience, config.accessTokenExpiryMinutes, now)),
               Some(GenerateRefreshToken(random)),
               AddMinutes(now, config.accessTokenExpiryMinutes))
      ensures response.success ==>
        forall id, later :: id in users.rows ==> !HoldsLiveToken(users.rows[id], refreshToken, later)
    {
      if IsNullOrWhiteSpace(refreshToken) {
        return RefreshFailed;
      }
      var found := users.GetByRefreshToken(refreshToken, now);
      if found.None? {
        return RefreshFailed;
      }
      var user := found.value;
      var newAccessToken := GenerateAccessToken(crypto, user, config.secret, config.issuer, config.audience,
                                                config.accessTokenExpiryMinutes, now);
      var newRefreshToken := GenerateRefreshToken(random);
      var expiresAt := AddMinutes(now, config.accessTokenExpiryMinutes);
      var refreshExpiry := AddDays(now, config.refreshTokenExpiryDays);
      ghost var before := users.rows;
      WithRefreshTokenKeepsUnique(before, user.id, newRefreshToken, refreshExpiry, now);
      users.UpdateRefreshToken(user.id, newRefreshToken, refreshExpiry, now);
      forall id, later | id in users.rows
        ensures !HoldsLiveToken(users.rows[id], refreshToken, later)
      {
        RotationRetiresOldToken(before, user.id, refreshToken, newRefreshToken, refreshExpiry, now, later);
      }
      response := RefreshTokenResponse(true, Some(newAccessToken), Some(newRefreshToken), expiresAt);
    }

    /** `LogoutAsync`: clears the token state of the row with that id; true
        exactly when such a row exists. */
    method Logout(userId: int, now: Instant) returns (ok: bool)
      requires Valid()
      modifies users
      ensures Valid() && users.nextId == old(users.nextId)
      ensures ok <==> userId in old(users.rows)
      ensures users.rows == WithoutRefreshToken(old(users.rows), userId, now)
      ensures ok ==> users.rows[userId].refreshToken == DbNull && users.rows[userId].refreshTokenExpiryTime == DbNull
    {
      WithoutRefreshTokenKeepsUnique(users.rows, userId, now);
      ok := users.ClearRefreshToken(userId, now);
    }

    /** `ValidateTokenAsync`: a blank token is rejected before the token handler
        sees it; any other is valid exactly when the handler accepts it under the
        configured key, issuer and audience with no clock skew. */
    function ValidateToken(token: string, now: Instant): (valid: bool)
      ensures IsNullOrWhiteSpace(token) ==> !valid
      ensures !IsNullOrWhiteSpace(token) ==> (valid <==> crypto.validateToken(token, ValidationParams(), now))
    {
      !IsNullOrWhiteSpace(token) && crypto.validateToken(token, ValidationParams(), now)
    }
  }
}
