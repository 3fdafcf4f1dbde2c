/** The request and response shapes the authentication service exchanges with the HTTP layer. */
module AuthDtos {
  import opened Options
  import opened Time

  datatype LoginRequest = LoginRequest(username: string, password: string)

  /** `ExpiresAt` is a non-nullable `DateTime`: a failed login leaves it at its default. */
  datatype LoginResponse = LoginResponse(
    success: bool,
    accessToken: Option<string>,
    refreshToken: Option<string>,
    expiresAt: Instant,
    user: Option<UserDto>)

  datatype RegisterRequest = RegisterRequest(
    username: string,
    email: string,
    password: string,
    passwordConfirm: string)

  datatype RegisterResponse = RegisterResponse(success: bool, user: Option<UserDto>)

  datatype RefreshTokenResponse = RefreshTokenResponse(
    success: bool,
    accessToken: Option<string>,
    refreshToken: Option<string>,
    expiresAt: Instant)

  /** The public profile of a user: it has no field for the password hash or the refresh token. */
  datatype UserDto = UserDto(
    id: int,
    username: string,
    email: string,
    role: string,
    isActive: bool,
    createdAt: Instant)

  /** `new LoginResponseDto { Success = false, User = null }`. */
  const LoginFailed: LoginResponse := LoginResponse(false, None, None, MinValue, None)

  /** `new RegisterResponseDto { Success = false }`. */
  const RegisterFailed: RegisterResponse := RegisterResponse(false, None)

  /** `new RefreshTokenResponseDto { Success = false }`. */
  const RefreshFailed: RefreshTokenResponse := RefreshTokenResponse(false, None, None, MinValue)
}
