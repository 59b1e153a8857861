# Session authentication of the OpenRCT2 web API, in Dafny

This project models `UserAuthenticationService`, the session-authentication
core of the OpenRCT2 API server, and proves what it promises. It covers:

- **Password hashing.** `HashPassword` is SHA-512 over the ASCII bytes of
  server salt ++ user salt ++ password, rendered as hex.
- **Token derivation.** `GenerateToken` is HMAC-SHA-512, keyed by the token
  secret, over the token id, the user id and `created.ToBinary()`.
  `ValidateToken` re-derives that value and compares it with the stored one.
- **Token lifecycle.** `CreateToken` truncates the clock to whole seconds
  and sets lastAccessed to created. `HasTokenExpired` allows one calendar
  month of inactivity (`DateTime.AddMonths(1)`, strict comparison).
- **Store-backed operations.** Login by name and password
  (`AuthenticateAsync`), re-authentication by bearer value
  (`AuthenticateWithTokenAsync`), and revocation (`RevokeTokenAsync`).
  All three run against a user store and a token store.

Layout, one module per file:

- `wrappers.dfy`: `Option` (a C# null) and `Checked` (a call that may throw
  `ArgumentOutOfRangeException`).
- `calendar.dfy`: the part of `System.DateTime` the service uses. Instants
  are tick counts. The Gregorian date is read back from the day number, and
  proved to be in one-to-one correspondence with it. Also here:
  `new DateTime(y, M, d, h, m, s)`, `AddMonths` (day clamped to the target
  month, time of day kept, throws when the year leaves 1..9999) and
  `ToBinary` for instants of kind Utc.
- `bytes.dfy`: `Encoding.ASCII.GetBytes` (each non-ASCII character becomes
  `?`) and `BinaryWriter.Write(long)` (eight bytes, little endian).
- `models.dfy`: `User`, `AuthToken`, the configuration, and the library
  primitives.
- `tokens.dfy`: `HashPassword`, `GenerateToken`, `ValidateToken`,
  `CreateToken` and `HasTokenExpired`, as functions.
- `repositories.dfy`: the two stores, as classes over maps. Users are keyed
  by id, with a name index. Tokens are keyed by their value.
- `protocol.dfy`: each store-backed operation as a function from the
  contents of both stores to the caller's result and the new contents, plus
  the lemmas about them.
- `service.dfy`: the class `UserAuthenticationService`. Its methods call
  the stores in the source's order. Each method is proved to produce exactly
  what the matching `protocol.dfy` function says.

Inputs the source takes from its environment are parameters:

- The clock. `AuthenticateWithToken` reads it twice in the source (line 142
  and line 85), so it takes two readings.
- The GUID of a new token.
- SHA-512, HMAC-SHA-512, `ToHexString`, `BinaryWriter.Write(string)` and
  `Encoding.UTF8.GetBytes`. These are fields of a `Crypto` value: total,
  deterministic functions about which nothing else is assumed. In
  particular, none of them is assumed injective.

Two consequences of the code are easy to miss, and the model keeps both:

- **Password collisions.** `HashPassword` (lines 177-185) is meant to
  separate passwords, but it hashes the ASCII bytes of its input (line 182),
  and that encoding turns every non-ASCII character into `?`. So "é" and "?"
  are accepted for each other, whatever the hash function is
  (`Tokens.NonAsciiPasswordsCollide`).
- **December 9999.** The expiry test at line 142 reads as a plain comparison
  that always answers. But `AddMonths(1)` throws for a token last used in
  December 9999, and the exception leaves `AuthenticateWithTokenAsync` before
  any store changes. The model returns `ArgumentOutOfRange` there.

## Model

| member | source | states |
|---|---|---|
| Calendar.FromParts | src/OpenRCT2.API/Services/UserAuthenticationService.cs:126-128 | `new DateTime(year, month, day, hour, minute, second)`: reading back the date, hour, minute and second gives the arguments, and there are no sub-second ticks |
| Calendar.RebuiltFromParts | src/OpenRCT2.API/Services/UserAuthenticationService.cs:125-128 | rebuilding the clock reading from its own date, hour, minute and second drops exactly its sub-second ticks |
| Calendar.DateOfDay | src/OpenRCT2.API/Services/UserAuthenticationService.cs:126-127 | the date read from a day number is a valid Gregorian date whose day number is that number |
| Calendar.DateOfDayNumber | src/OpenRCT2.API/Services/UserAuthenticationService.cs:126-127 | the other direction: every valid date is read back unchanged from its own day number |
| Calendar.AddMonths | src/OpenRCT2.API/Services/UserAuthenticationService.cs:142 | `AddMonths` keeps the time of day of the instant it moves |
| Calendar.AddOneMonth | src/OpenRCT2.API/Services/UserAuthenticationService.cs:141-142 | `AddMonths(1)` throws exactly for instants in December 9999; otherwise it gives the next month (January of the next year after December), with the day clamped to that month's length, the same time of day, and 28 to 31 days later |
| Calendar.ToBinary | src/OpenRCT2.API/Services/UserAuthenticationService.cs:169 | `ToBinary` of a Utc instant is a non-negative 63-bit value from which the ticks are recovered exactly |
| Bytes.Ascii | src/OpenRCT2.API/Services/UserAuthenticationService.cs:182 | ASCII encoding gives one byte per character: the character itself below 128, `?` otherwise |
| Bytes.AsciiAppend | src/OpenRCT2.API/Services/UserAuthenticationService.cs:179-182 | encoding a concatenation is concatenating the encodings, so salts and password are encoded separately |
| Bytes.WriteInt64 | src/OpenRCT2.API/Services/UserAuthenticationService.cs:169 | writing a long gives eight bytes whose little-endian value is the long modulo 2^64 |
| Bytes.WriteInt64Injective | src/OpenRCT2.API/Services/UserAuthenticationService.cs:169 | two longs written to the same eight bytes are equal |
| Tokens.HashPassword | src/OpenRCT2.API/Services/UserAuthenticationService.cs:177-185 | SHA-512 of the ASCII bytes of server salt ++ user salt ++ password, as hex; what this hash can tell apart is stated by `HashPasswordSeesOnlyAscii` and `NonAsciiPasswordsCollide` |
| Tokens.HashPasswordSeesOnlyAscii | src/OpenRCT2.API/Services/UserAuthenticationService.cs:177-185 | two passwords with the same ASCII bytes hash alike under every salt and every hash function |
| Tokens.NonAsciiPasswordsCollide | src/OpenRCT2.API/Services/UserAuthenticationService.cs:179-182 | the distinct passwords "é" and "?" have the same hash |
| Tokens.TokenMessage | src/OpenRCT2.API/Services/UserAuthenticationService.cs:163-169 | the bytes the MAC covers: id, user id, then `created.ToBinary()`; the last eight bytes read back as created's ticks plus the Utc flag |
| Tokens.GenerateToken | src/OpenRCT2.API/Services/UserAuthenticationService.cs:160-175 | HMAC-SHA-512 under the token secret of `TokenMessage`, as hex; that created tokens re-derive is stated by `CreateToken`, and that the message fixes created by `TokenMessageFixesCreated` |
| Tokens.TokenMessageFixesCreated | src/OpenRCT2.API/Services/UserAuthenticationService.cs:165-169 | equal token messages have equal created instants, whatever the string encoding does |
| Tokens.ValidateToken | src/OpenRCT2.API/Services/UserAuthenticationService.cs:145-158 | a record is genuine when its value equals the one re-derived from its id, user id and created; its properties are stated by `ValidationIgnoresLastAccessed`, `AlteredValueRejected` and `CreateToken` |
| Tokens.ValidationIgnoresLastAccessed | src/OpenRCT2.API/Services/UserAuthenticationService.cs:145-150 | validity depends only on id, user id, created and value, so touching a token never invalidates it |
| Tokens.AlteredValueRejected | src/OpenRCT2.API/Services/UserAuthenticationService.cs:145-157 | a genuine record whose stored value is changed, with its identity fields kept, fails validation |
| Tokens.CreateToken | src/OpenRCT2.API/Services/UserAuthenticationService.cs:121-137 | a new token has the given id and user id; created is at most the clock reading, less than a second before it, on the same date, and has no sub-second ticks; lastAccessed equals created; the token validates |
| Tokens.CreatedTokenSurvivesReload | src/OpenRCT2.API/Services/UserAuthenticationService.cs:123-135 | a created token still validates after a store that keeps only whole seconds hands it back |
| Tokens.SubSecondTicksChangeMessage | src/OpenRCT2.API/Services/UserAuthenticationService.cs:123-124 | without the truncation, such a store would hand back a created instant that gives a different token message |
| Tokens.HasTokenExpired | src/OpenRCT2.API/Services/UserAuthenticationService.cs:139-143 | expiry throws exactly for tokens last used in December 9999; never expired within 28 days of lastAccessed; always expired more than 31 days after it |
| Tokens.ExpiryBoundaryIsStrict | src/OpenRCT2.API/Services/UserAuthenticationService.cs:142 | at exactly lastAccessed plus one month the token is not yet expired |
| Tokens.ExpiryIsPermanent | src/OpenRCT2.API/Services/UserAuthenticationService.cs:139-143 | once expired, a token stays expired at every later clock reading |
| Repositories.UserNamed | src/OpenRCT2.API/Services/UserAuthenticationService.cs:40 | with a consistent name index: a user is found exactly when some stored user has that name, and it is that stored user |
| Repositories.UserRepository.GetUserFromName | src/OpenRCT2.API/Services/UserAuthenticationService.cs:40 | store lookup by login name: a user is found exactly when some stored user has that name, and it is that stored user |
| Repositories.UserRepository.GetUserFromId | src/OpenRCT2.API/Services/UserAuthenticationService.cs:89 | store lookup by id: found exactly when the id is stored, and then the record stored under it, which carries that id |
| Repositories.UserRepository.UpdateUser | src/OpenRCT2.API/Services/UserAuthenticationService.cs:52 | store update: the record under the user's id is replaced, the name index is untouched, and the store stays consistent |
| Repositories.AuthTokenRepository.Insert | src/OpenRCT2.API/Services/UserAuthenticationService.cs:48 | the token is stored under its value; nothing else changes |
| Repositories.AuthTokenRepository.GetFromToken | src/OpenRCT2.API/Services/UserAuthenticationService.cs:71 | store lookup by value: found exactly when the value is stored, and then the record stored under it, which carries that value |
| Repositories.AuthTokenRepository.Update | src/OpenRCT2.API/Services/UserAuthenticationService.cs:86 | the record is written back under its value; nothing else changes |
| Repositories.AuthTokenRepository.Delete | src/OpenRCT2.API/Services/UserAuthenticationService.cs:93 | the record with that value is removed, if present; nothing else changes |
| Protocol.Login | src/OpenRCT2.API/Services/UserAuthenticationService.cs:37-66 | `AuthenticateAsync` as a step from the store contents to the result and the new contents; its behaviour is stated by `LoginFailsSilently`, `LoginIssuesOneToken` and `AliceLogsIn` |
| Protocol.LoginFailsSilently | src/OpenRCT2.API/Services/UserAuthenticationService.cs:37-66 | login returns a user exactly when it returns a token, and both exactly when the name is known and the password hashes to the stored digest; an unknown name and a wrong password give the same empty pair and change neither store |
| Protocol.LoginIssuesOneToken | src/OpenRCT2.API/Services/UserAuthenticationService.cs:44-54 | a successful login stores one new token, the very one `CreateToken` makes (the given id, the user's id, created at most a second before the clock reading with no sub-second ticks, lastAccessed = created, valid), and updates only that user, whose lastAuthenticated becomes the token's lastAccessed; the stores stay consistent and the name now leads to the updated user |
| Protocol.AliceLogsIn | src/OpenRCT2.API/Services/UserAuthenticationService.cs:37-66 | worked example: alice with salt "s1" and the digest of "pw1" logs in with "pw1" and gets a token whose value is the HMAC of its message; with a password whose digest differs she gets nothing and nothing changes |
| Protocol.AuthenticateWithToken | src/OpenRCT2.API/Services/UserAuthenticationService.cs:68-114 | `AuthenticateWithTokenAsync` as a step on the store contents, with two clock readings; its behaviour is stated by `RejectedTokenLeavesStoresAlone`, `AcceptedTokenIsTouched`, `OrphanTokenIsPurged` and `LoginThenTokenAuthenticates` |
| Protocol.RejectedTokenLeavesStoresAlone | src/OpenRCT2.API/Services/UserAuthenticationService.cs:68-113 | an unknown value, a value that does not re-derive, and an expired token all give the same empty result, and neither store changes (the record is kept); the December 9999 case throws, also before any change |
| Protocol.AcceptedTokenIsTouched | src/OpenRCT2.API/Services/UserAuthenticationService.cs:84-100 | a genuine, unexpired token of an existing user gets lastAccessed = now and is stored; the user gets lastAuthenticated = the same value, is stored and is returned; the token still validates; nothing else changes |
| Protocol.OrphanTokenIsPurged | src/OpenRCT2.API/Services/UserAuthenticationService.cs:84-94 | a genuine, unexpired token whose user is gone is deleted and nothing is returned; a later attempt with that value finds nothing and changes nothing |
| Protocol.RevokeToken | src/OpenRCT2.API/Services/UserAuthenticationService.cs:116-119 | `RevokeTokenAsync` as a step on the store contents; its behaviour is stated by `RevokeRemovesOnlyThatToken` and `RevokedTokenIsRejected` |
| Protocol.RevokeRemovesOnlyThatToken | src/OpenRCT2.API/Services/UserAuthenticationService.cs:116-119 | revocation removes exactly that value, keeps every other record and the user store, keeps the stores consistent, and is idempotent |
| Protocol.RevokedTokenIsRejected | src/OpenRCT2.API/Services/UserAuthenticationService.cs:116-119 | after revocation, re-authentication with that value returns nothing and changes nothing |
| Protocol.LoginThenTokenAuthenticates | src/OpenRCT2.API/Services/UserAuthenticationService.cs:47-100 | a token from a successful login re-authenticates the same user while the clock is less than 28 days (less one second) past the login |
| Service.UserAuthenticationService.constructor | src/OpenRCT2.API/Services/UserAuthenticationService.cs:23-35 | the service keeps the server salt, the UTF-8 bytes of the token secret, and the two stores it is given |
| Service.UserAuthenticationService.Authenticate | src/OpenRCT2.API/Services/UserAuthenticationService.cs:37-66 | `AuthenticateAsync` over the two store objects: its result and the new store contents are exactly those of `Protocol.Login`, and both stores stay consistent |
| Service.UserAuthenticationService.AuthenticateWithToken | src/OpenRCT2.API/Services/UserAuthenticationService.cs:68-114 | `AuthenticateWithTokenAsync`: its result and the new store contents are exactly those of `Protocol.AuthenticateWithToken`, and both stores stay consistent |
| Service.UserAuthenticationService.RevokeToken | src/OpenRCT2.API/Services/UserAuthenticationService.cs:116-119 | `RevokeTokenAsync`: the new store contents are exactly those of `Protocol.RevokeToken` |

## Left out

- **Logging.** The `_logger` calls have no effect a caller can observe.
- **Async and concurrency.** The `Task`/`await` plumbing and concurrent
  callers are not modelled. Each operation is one atomic sequential step, so
  a partial failure between two store calls is not modelled either.
- **Cryptographic internals.** SHA-512, HMAC-SHA-512, `ToHexString`, the
  length-prefixed string format of `BinaryWriter.Write(string)` and UTF-8
  encoding are not modelled. They are uninterpreted. So tamper detection is
  proved only for a changed token value (`AlteredValueRejected`). A changed
  created instant does change the MAC's input (`TokenMessageFixesCreated`).
  But a changed id, user id or created instant is rejected only if the MAC
  separates the two messages, which is not assumed.
- **`DateTime.Kind`.** Every instant is treated as Utc, as `UtcNow` and
  the constructor at line 126 produce it. A store that hands back
  `Created` with another kind would change `ToBinary`; that is not modelled.
- **How `GetDate` computes.** .NET reads the date from ticks through
  400/100/4/1-year cycles. The model searches year by year and month by
  month instead. `DateOfDay` and `DateOfDayNumber` prove it gives the only
  possible date.
- **String representation.** C# strings are UTF-16. The model's strings are
  sequences of Unicode scalar values, so lone surrogates are not represented.
- **GUIDs.** `Guid.NewGuid()` is a parameter, and its uniqueness is not
  assumed.
- **Store contracts.** The real stores are not part of this model. The
  in-memory stand-ins key tokens by value, so two records with one value
  cannot exist, and an insert under an existing value replaces that record.
  `UpdateUser` is specified only for an existing user whose login name is
  unchanged, which is how the service calls it. Other user attributes
  (e-mail and the like) are omitted.
- **Startup, pages and content repository.** The web host setup, the Blazor
  content page and the content-repository interface are framework glue with
  no logic to verify.
- **C# `null`.** Strings in the model are never null, so the source's
  behaviour on null strings is not represented. A missing `AuthTokenSecret`
  makes `Encoding.UTF8.GetBytes` throw in the constructor (line 31). A null
  `PasswordServerSalt` or `PasswordSalt` is concatenated as the empty string
  (line 179). A stored record with a null `Id` or `UserId` makes
  `BinaryWriter.Write` throw (lines 167-168).
