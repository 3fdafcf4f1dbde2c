# EchoWarehouse authentication core, in Dafny

This project models the authentication core of the EchoWarehouse backend:

- the `AuthService`: login, registration, refresh-token rotation, logout and access-token validation;
- the `UserRepository` SQL statements it runs against the PostgreSQL `users` table;
- the static `AuthHelpers` it uses: unsalted SHA-256 password hashing, the mapping to the public `UserDto`, the claims of an access token, and the random refresh token.

The model is organised by module:

| file | module | what it holds |
|---|---|---|
| `options.dfy` | `Options` | `Option`, for the C# nullable values |
| `time.dfy` | `Time` | `DateTime` as whole seconds since `DateTime.MinValue`, `AddMinutes`, `AddDays` |
| `text.dfy` | `Text` | `char.IsWhiteSpace`, `string.IsNullOrWhiteSpace`, `string.Length` in UTF-16 code units, `int.ToString`, `int.TryParse` |
| `base64.dfy` | `Base64` | `Convert.ToBase64String` (section 4 of RFC 4648), with a decoder used as its inverse in the proofs |
| `user_repository.dfy` | `UserRepository` | the `users` rows, SQL NULLs and three-valued `WHERE` logic, each statement as a function on the table, and the `UserTable` class whose methods run them |
| `auth_dtos.dfy` | `AuthDtos` | the request and response DTOs |
| `auth_helpers.dfy` | `AuthHelpers` | hashing, profile mapping, access-token descriptor, refresh-token generation |
| `auth_service.dfy` | `AuthService` | configuration loading and the `AuthService` class |

The store is a class, `UserTable`. It holds the rows in a `map` from `id` to row and the next value of the `id` sequence. Each repository method is one atomic step on it. The `UPDATE` and `INSERT` statements are also written as functions from the old table to the new one (`WithRefreshToken`, `WithoutRefreshToken`, `InsertedRow`). The lemmas are stated about those functions, and the methods' `ensures` tie the new state to them.

`AuthService` is a class over a `UserTable`. Its invariant, `Valid`, says:

- the table is keyed by `id`;
- no two rows share a username or an email;
- no two rows share a refresh token.

The cryptographic and environmental inputs are made explicit:

- **Crypto oracles.** SHA-256 and the JWT token handler are deterministic oracles in a `Crypto` value.
- **Clock.** `DateTime.UtcNow` and the database's `NOW()` are an explicit `now`.
- **Randomness.** The 64 random bytes of a refresh token are a parameter.

A refresh token from the random number generator is assumed not to be stored already. This is stated as a precondition of `Login` and `RefreshToken`. It is the only assumption about randomness.

Some behaviour of the source is captured as written:

- **No active-user check on refresh.** `RefreshToken` does not check `is_active`: a deactivated user whose refresh token is still live can keep refreshing.
- **Failures look the same.** Every login failure produces the same response: blank input, an unknown user, an inactive user and a wrong password cannot be told apart.
- **LIMIT 1 without ORDER BY.** The two `LIMIT 1` queries have no `ORDER BY`. `GetByUsername` and `GetByRefreshToken` may therefore return any matching row. Under the service invariant at most one row matches.

## Model

| member | source | states |
|---|---|---|
| `Text.Utf16Length` | Services/AuthService.cs:85 | the length `Password.Length` measures lies between the number of characters and twice that, and equals the number of characters exactly when no character lies outside the Basic Multilingual Plane |
| `Text.Utf16LengthChar` | Services/AuthService.cs:85 | one character counts for two code units when it lies outside the Basic Multilingual Plane and for one otherwise |
| `Text.Utf16LengthConcat` | Services/AuthService.cs:85 | the code-unit count of a concatenation is the sum of the counts, so `Password.Length` is the number of characters plus the number of supplementary ones |
| `Text.IsNullOrWhiteSpace` | Services/AuthService.cs:37 | the guard at lines 37, 73-75, 129 and 176: the empty string is blank, and a string is blank exactly when `TrimStart` leaves nothing of it |
| `Text.TrimStartEmpty` | Services/AuthService.cs:73-75 | a string trims to nothing exactly when every character is white space |
| `Text.IntToStringRoundTrip` | Controllers/AuthController.cs:114-115 | `int.TryParse` of `int.ToString()` gives back the same integer, for every integer |
| `Base64.Encode` | Extensions/Helpers/Auth/AuthHelpers.cs:45 | `Convert.ToBase64String` produces four characters per started group of three bytes |
| `Base64.EncodeAlphabet` | Extensions/Helpers/Auth/AuthHelpers.cs:54 | every character of an encoding is one of the 64 symbols or the pad `=` |
| `Base64.EncodePadding` | Extensions/Helpers/Auth/AuthHelpers.cs:54 | an encoding contains a pad character exactly when the byte count is not a multiple of three |
| `Base64.RoundTrip` | Extensions/Helpers/Auth/AuthHelpers.cs:45 | decoding an encoding gives back the bytes |
| `Base64.EncodeInjective` | Extensions/Helpers/Auth/AuthHelpers.cs:54 | two byte strings have the same encoding exactly when they are equal |
| `UserRepository.FromDb` | Repositories/Auth/UserRepository.cs:140-145 | a NULL column reads as null and a value reads as that value |
| `UserRepository.ToDb` | Repositories/Auth/UserRepository.cs:84 | writing a nullable value as a parameter and reading it back gives the same value |
| `UserRepository.ReadUser` | Repositories/Auth/UserRepository.cs:127-147 | no row gives null; a row gives a user with every column copied, and each nullable field is absent exactly when its column is NULL |
| `UserRepository.LiveTokenMatch` | Repositories/Auth/UserRepository.cs:40-41 | a row satisfies the refresh-token `WHERE` exactly when it stores that token and an expiry later than now; a NULL token or expiry never matches |
| `UserRepository.InsertedRow` | Repositories/Auth/UserRepository.cs:72-74 | reading back the inserted row gives the user with the new id and with refresh token, expiry and `updated_at` absent |
| `UserRepository.WithRefreshToken` | Repositories/Auth/UserRepository.cs:92-97 | the `UPDATE` sets token, expiry and `updated_at` on the row with that id and changes no other row and no key |
| `UserRepository.WithoutRefreshToken` | Repositories/Auth/UserRepository.cs:111-116 | the `UPDATE` sets token and expiry to NULL and `updated_at` to now on the row with that id, changes no other row and no key |
| `UserRepository.InsertKeepsUnique` | Repositories/Auth/UserRepository.cs:72-74 | inserting under a fresh id a user whose username and email are unused keeps usernames, emails and refresh tokens unique |
| `UserRepository.WithRefreshTokenKeepsUnique` | Repositories/Auth/UserRepository.cs:92-97 | storing a token no row holds keeps usernames, emails and refresh tokens unique |
| `UserRepository.WithoutRefreshTokenKeepsUnique` | Repositories/Auth/UserRepository.cs:111-116 | clearing a token keeps usernames, emails and refresh tokens unique |
| `UserRepository.RotationRetiresOldToken` | Repositories/Auth/UserRepository.cs:36-42 | after the row holding a token is given a new unused token, the old token matches no row at any instant |
| `UserRepository.RotatedTokenIsLive` | Repositories/Auth/UserRepository.cs:36-42 | until its expiry, a newly stored unused token matches the row it was stored on and no other |
| `UserRepository.ClearedRowHoldsNothing` | Repositories/Auth/UserRepository.cs:111-116 | a cleared row matches no refresh token at any instant |
| `UserRepository.ClearTwice` | Repositories/Auth/UserRepository.cs:111-116 | clearing twice equals clearing once at the later instant; the second clear only moves `updated_at` |
| `UserRepository.UserTable.GetByUsername` | Repositories/Auth/UserRepository.cs:17-32 | null exactly when no row has that username; otherwise the user read from a row that has it |
| `UserRepository.UserTable.GetByRefreshToken` | Repositories/Auth/UserRepository.cs:34-50 | null exactly when no row holds that token with an expiry after now; otherwise the user read from such a row |
| `UserRepository.UserTable.UserExists` | Repositories/Auth/UserRepository.cs:52-67 | true exactly when some row, active or not, has that username or that email |
| `UserRepository.UserTable.CreateUser` | Repositories/Auth/UserRepository.cs:69-88 | the returned id is positive and new; the table gains exactly the inserted row under it, and the sequence advances |
| `UserRepository.UserTable.UpdateRefreshToken` | Repositories/Auth/UserRepository.cs:90-107 | the new table is `WithRefreshToken` of the old one |
| `UserRepository.UserTable.ClearRefreshToken` | Repositories/Auth/UserRepository.cs:109-125 | true exactly when a row with that id existed; the new table is `WithoutRefreshToken` of the old one |
| `AuthHelpers.HashPassword` | Extensions/Helpers/Auth/AuthHelpers.cs:49-56 | a password hash is 44 base 64 characters |
| `AuthHelpers.VerifyPassword` | Extensions/Helpers/Auth/AuthHelpers.cs:58-62 | only a 44-character stored hash can verify |
| `AuthHelpers.VerifyOwnHash` | Extensions/Helpers/Auth/AuthHelpers.cs:58-62 | the hash of a password verifies against that password |
| `AuthHelpers.VerifyComparesDigests` | Extensions/Helpers/Auth/AuthHelpers.cs:49-62 | a password verifies against the stored hash of another exactly when the two have the same SHA-256 digest; there is no salt |
| `AuthHelpers.MapUserToDto` | Extensions/Helpers/Auth/AuthHelpers.cs:64-75 | id, username, email, active flag and creation time are copied; the role is the stored role, or "User" when none is stored |
| `AuthHelpers.FindFirstAt` | Controllers/AuthController.cs:114 | `FindFirst` returns the value of the earliest claim of the requested type |
| `AuthHelpers.AccessTokenIdentifiesUser` | Extensions/Helpers/Auth/AuthHelpers.cs:19-32 | in the token descriptor, the name-identifier claim parses back to the user's id; the name, email and role claims equal the user's profile; the token expires the configured number of minutes after issue; issuer, audience and HMAC-SHA-256 credentials are the configured ones |
| `AuthHelpers.GenerateAccessToken` | Extensions/Helpers/Auth/AuthHelpers.cs:13-37 | the token is what the handler writes for a descriptor whose subject is the user's four claims, which expires the given number of minutes after now, and which names the given issuer and audience and HMAC-SHA-256 credentials under the secret |
| `AuthHelpers.AccessTokenDependsOnClaimsOnly` | Extensions/Helpers/Auth/AuthHelpers.cs:21-27 | two users with the same id, username, email and effective role get the same token; the password hash, refresh token, active flag and timestamps do not enter it |
| `AuthHelpers.GenerateRefreshToken` | Extensions/Helpers/Auth/AuthHelpers.cs:39-47 | a refresh token is 88 base 64 characters |
| `AuthHelpers.RefreshTokenInjective` | Extensions/Helpers/Auth/AuthHelpers.cs:39-47 | two random draws give the same refresh token exactly when they are equal |
| `AuthService.ParseOr` | Services/AuthService.cs:29-30 | a missing or unparsable setting gives the default; a setting that is the decimal form of an integer gives that integer |
| `AuthService.LoadConfig` | Services/AuthService.cs:26-30 | the configuration fails exactly when no secret is configured, and otherwise carries that secret |
| `AuthService.DefaultConfig` | Services/AuthService.cs:26-30 | with only a secret configured, the issuer is "EchoWarehouse", the audience "EchoWarehouseApp", access tokens last 15 minutes and refresh tokens 7 days |
| `AuthService.ConfiguredLifetimes` | Services/AuthService.cs:29-30 | lifetimes written as decimal integers are taken as written |
| `AuthService.NewUser` | Services/AuthService.cs:95-103 | the user built for a registration has the requested username and email, a hash the password verifies against, the active flag, role "User", creation time now, and no refresh token, expiry or update time |
| `AuthService.RegisteredRow` | Services/AuthService.cs:95-103 | a registration stores an active user with role "User", the unsalted hash of the password (which verifies against it), creation time now, and no refresh token, expiry or update time |
| `AuthService.AuthService.constructor` | Services/AuthService.cs:22-31 | the service holds the configuration, oracles and table it is given, and starts with its invariant |
| `AuthService.AuthService.Login` | Services/AuthService.cs:33-67 | success exactly when username and password are not blank and some active row has that username and a hash the password verifies. On failure, the fixed failure response and an unchanged table. On success, the user is that row's user; the response carries the profile, the access token for that user, the new refresh token, and an expiry the configured number of minutes away; that row alone stores the new token with an expiry the configured number of days away. Uniqueness is kept |
| `AuthService.AuthService.Register` | Services/AuthService.cs:69-123 | success exactly when username, email and password are not blank, the confirmation matches, the password has at least 6 UTF-16 code units, and no row has that username or email. On failure, the fixed failure response and an unchanged table. On success, exactly one row is added, under a new id, holding the new user, and the response carries its profile. Uniqueness is kept |
| `AuthService.AuthService.RefreshToken` | Services/AuthService.cs:125-158 | success exactly when the token is not blank and some row holds it with an expiry after now. On failure, the fixed failure response and an unchanged table. On success, that row alone is given the new refresh token; the response carries the access token for that row's user, the new refresh token, and the access expiry; the presented token then matches no row at any instant. Uniqueness is kept |
| `AuthService.AuthService.Logout` | Services/AuthService.cs:160-170 | true exactly when a row with that id exists; that row's token and expiry become NULL and nothing else changes but its `updated_at`. Uniqueness is kept |
| `AuthService.AuthService.ValidateToken` | Services/AuthService.cs:172-200 | a blank token is never valid; a token that is not blank is valid exactly when the token handler accepts it under the configured key, issuer and audience with zero clock skew |

## Left out

- Cryptography: SHA-256, HMAC-SHA-256 signing, JWT serialization and JWT validation are oracles (`Crypto`). The model proves what is built from them, not their internals.
- Signing faults: `writeToken` is total, so signing is assumed never to fail. In the source, an empty secret or one shorter than the HMAC-SHA-256 minimum key size makes `SymmetricSecurityKey` or `CreateToken` throw (Extensions/Helpers/Auth/AuthHelpers.cs:17, 31-35). `LoginAsync` and `RefreshTokenAsync` then return the failure response with the table untouched (Services/AuthService.cs:63-66, 154-157). In the model, `Login` and `RefreshToken` succeed and store a new refresh token for such a secret.
- Unpaired surrogates: strings are sequences of Unicode scalar values, so a C# string holding an unpaired surrogate cannot be represented. `Encoding.UTF8.GetBytes` would replace it by U+FFFD before hashing, and `Length` would count it as one code unit.
- Issue time: `JwtSecurityTokenHandler.CreateToken` also stamps the issue time and not-before claims. These are inside the `writeToken` oracle.
- Randomness: `RandomNumberGenerator.GetBytes` is a parameter. That a fresh draw collides with no stored token is a precondition of `Login` and `RefreshToken`, not a proved fact.
- Store faults: database and connection faults are not modelled. The `catch` blocks that turn them into failure responses are therefore not modelled, and neither is the `CreateUserAsync` null result that `RegisterAsync` handles at Services/AuthService.cs:106-109.
- Async execution, Npgsql connections and commands: each statement is one atomic step.
- Concurrent requests: interleaving between the `UserExistsAsync` check and the insert, or between two refreshes of the same token, is not modelled. Each service operation runs alone.
- Clock reads: the several reads of `DateTime.UtcNow` within one operation are one `now`. The database's `NOW()` is the same `now`.
- Time: instants are whole seconds. `DateTime` ticks, time zones and the `DateTime` range (and the exception `AddDays` throws past it) are not modelled.
- Integer width: ids and lifetimes are unbounded integers, so `int` overflow is not modelled.
- Nulls: request strings are never null. The DTOs initialise them to the empty string, and model binding of a JSON `null` is not modelled.
- `Text.TryParseInt`: accepts only an optional minus sign followed by digits. It does not model the leading and trailing white space, the `+` sign or the `Int32` range check that `int.TryParse` applies.
- `AuthService.AuthService.ValidateToken`: the check `validatedToken is JwtSecurityToken` is part of the `validateToken` oracle.
- The HTTP controller, `Program.cs` startup and the `DbContext` are not part of this model.
- The `IAuthService` and `IUserRepository` interfaces are not part of this model: they only declare what the classes implement.
